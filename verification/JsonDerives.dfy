/** Nothing else is accepted: whenever the reader succeeds, the document is a text of the
    grammar, and its tree denotes the value that was read. */
module JsonDerives {
  import opened Bytes
  import opened JsonAccepts
  import opened JsonErrors
  import opened JsonGrammar
  import opened JsonLexer
  import opened JsonNumber
  import opened JsonParser
  import opened JsonTokens
  import opened JsonValue
  import JsonString
  import Utf8

  // ----- whitespace and comments -----

  lemma StandsThere(doc: Text, pos: nat, end: nat)
    requires pos <= end <= |doc|
    ensures HasAt(doc, pos, doc[pos..end])
  {
  }

  lemma Joins(doc: Text, pos: nat, a: Text, b: Text)
    requires HasAt(doc, pos, a) && HasAt(doc, pos + |a|, b)
    ensures HasAt(doc, pos, a + b)
  {
    assert doc[pos..pos + |a + b|] == doc[pos..pos + |a|] + doc[pos + |a|..pos + |a| + |b|];
  }

  /** The loop over a comment in stars met its end. */
  predicate Starred(doc: Text, pos: nat)
    requires pos <= |doc|
  {
    var stop := CStyleStop(doc, pos);
    pos < stop < |doc| && doc[stop - 1] == 42 && doc[stop] == 47
  }

  lemma {:induction false} StarsFound(doc: Text, pos: nat) returns (body: Text)
    requires pos <= |doc| && Starred(doc, pos)
    ensures PieceWellFormed(Block(body)) && HasAt(doc, pos, body + [42, 47])
    ensures CStyleStop(doc, pos) == pos + |body| + 1
    decreases |doc| - pos
  {
    if doc[pos] == 42 && doc[pos + 1] == 47 {
      body := [];
      assert doc[pos..pos + 2] == [42, 47] == body + [42, 47];
    } else {
      var rest := StarsFound(doc, pos + 1);
      body := [doc[pos]] + rest;
      assert HasAt(doc, pos, [doc[pos]]);
      Joins(doc, pos, [doc[pos]], rest + [42, 47]);
      assert body + [42, 47] == [doc[pos]] + (rest + [42, 47]);
      HasAtIndex(doc, pos + 1, rest + [42, 47], 0);
      forall k | 0 <= k < |body|
        ensures !(body[k] == 42 && (body + [42])[k + 1] == 47)
      {
        if k > 0 {
          assert !(rest[k - 1] == 42 && (rest + [42])[k] == 47);
        } else if rest != [] {
          assert (body + [42])[1] == doc[pos + 1];
        }
      }
    }
  }

  lemma {:induction false} StarredOrNot(doc: Text, pos: nat)
    requires pos <= |doc|
    ensures CStyleStop(doc, pos) + 1 < |doc| ==> Starred(doc, pos)
    ensures !Starred(doc, pos) ==> forall k :: pos <= k < |doc| - 1 ==> !(doc[k] == 42 && doc[k + 1] == 47)
    decreases |doc| - pos
  {
    if pos + 1 < |doc| && !(doc[pos] == 42 && doc[pos + 1] == 47) {
      StarredOrNot(doc, pos + 1);
    }
  }

  /** The rest of a line, with its break unless the document ends first. */
  lemma {:induction false} LineFound(doc: Text, pos: nat) returns (body: Text, ending: Text)
    requires pos <= |doc|
    ensures forall k :: 0 <= k < |body| ==> body[k] != 10 && body[k] != 13
    ensures ending in {[], [10], [13], [13, 10]} && HasAt(doc, pos, body + ending)
    ensures CppStyleEnd(doc, pos) == pos + |body| + |ending|
    ensures ending == [13] ==> CharAt(doc, pos + |body| + 1) != 10
    ensures ending == [] ==> CppStyleEnd(doc, pos) == |doc|
    decreases |doc| - pos
  {
    if pos == |doc| || doc[pos] == 10 || doc[pos] == 13 {
      body, ending := [], doc[pos..CppStyleEnd(doc, pos)];
      assert body + ending == ending;
      if pos < |doc| {
        BreakIs(doc, pos);
      }
    } else {
      body, ending := LineFound(doc, pos + 1);
      LineLonger(doc, pos, body, ending);
      body := [doc[pos]] + body;
    }
  }

  lemma BreakIs(doc: Text, pos: nat)
    requires pos < |doc| && (doc[pos] == 10 || doc[pos] == 13)
    ensures CppStyleEnd(doc, pos) <= |doc| && doc[pos..CppStyleEnd(doc, pos)] in {[10], [13], [13, 10]}
  {
    if doc[pos] == 13 && CharAt(doc, pos + 1) == 10 {
      assert doc[pos..pos + 2] == [doc[pos], doc[pos + 1]];
    } else {
      assert doc[pos..pos + 1] == [doc[pos]];
    }
  }

  lemma LineLonger(doc: Text, pos: nat, body: Text, ending: Text)
    requires pos < |doc| && HasAt(doc, pos + 1, body + ending)
    ensures HasAt(doc, pos, ([doc[pos]] + body) + ending)
  {
    BracketAt(doc, pos);
    Joins(doc, pos, [doc[pos]], body + ending);
    assert [doc[pos]] + (body + ending) == ([doc[pos]] + body) + ending;
  }

  lemma CommentIs(f: Features, doc: Text, start: nat)
    requires start <= |doc| && TokenAt(f, doc, start).kind == CommentToken
    ensures start < |doc| && doc[start] == 47 && TokenAt(f, doc, start) == CommentFrom(doc, start)
    ensures ReadComment(doc, start + 1).0
  {
  }

  lemma CommentFound(f: Features, doc: Text, start: nat) returns (p: Piece)
    requires start <= |doc| && TokenAt(f, doc, start).kind == CommentToken && TokenAt(f, doc, start).end < |doc|
    ensures !p.Space? && PieceWellFormed(p) && HasAt(doc, start, PieceText(p))
    ensures TokenAt(f, doc, start).end == start + |PieceText(p)|
    ensures p.Line? && p.ending == [13] ==> CharAt(doc, TokenAt(f, doc, start).end) != 10
  {
    hide TokenAt, PieceWellFormed, PieceText, HasAt, CutShort;
    var ps, tail := CommentOrTail(f, doc, start);
    assert ps != [];
    p := ps[0];
  }

  /** A comment is there in full, or cut short by the end of the document. */
  ghost predicate CommentThere(doc: Text, start: nat, end: nat, ps: Filler, tail: Text) {
    if ps == [] then CutShort(tail) && HasAt(doc, start, tail) && start + |tail| == |doc| == end
    else
      && |ps| == 1 && !ps[0].Space? && PieceWellFormed(ps[0]) && HasAt(doc, start, PieceText(ps[0]))
      && end == start + |PieceText(ps[0])|
      && (ps[0].Line? && ps[0].ending == [13] ==> CharAt(doc, end) != 10)
  }

  lemma CommentOrTail(f: Features, doc: Text, start: nat) returns (ps: Filler, tail: Text)
    requires start <= |doc| && TokenAt(f, doc, start).kind == CommentToken
    ensures CommentThere(doc, start, TokenAt(f, doc, start).end, ps, tail)
  {
    hide TokenAt, CStyleStop, CppStyleEnd, CommentThere;
    CommentIs(f, doc, start);
    if doc[start + 1] == 42 {
      ps, tail := StarsOrTail(doc, start);
    } else {
      ps, tail := LineOrTail(doc, start);
    }
  }

  lemma StarsOrTail(doc: Text, start: nat) returns (ps: Filler, tail: Text)
    requires start + 2 <= |doc| && doc[start] == 47 && doc[start + 1] == 42
    requires CStyleStop(doc, start + 2) <= |doc| && CharAt(doc, CStyleStop(doc, start + 2)) == 47
    ensures CommentThere(doc, start, Advance(doc, CStyleStop(doc, start + 2)), ps, tail)
  {
    hide CStyleStop, PieceWellFormed, CutShort, HasAt;
    ps, tail := [], doc[start..];
    StarredOrNot(doc, start + 2);
    if Starred(doc, start + 2) {
      var body := StarsFound(doc, start + 2);
      TwoBytes(doc, start);
      Joins(doc, start, [47, 42], body + [42, 47]);
      ps := [Block(body)];
    } else {
      TailStands(doc, start, start);
      StarsCut(doc, start);
    }
  }

  lemma LineOrTail(doc: Text, start: nat) returns (ps: Filler, tail: Text)
    requires start + 2 <= |doc| && doc[start] == 47 && doc[start + 1] == 47
    ensures CommentThere(doc, start, CppStyleEnd(doc, start + 2), ps, tail)
  {
    hide CppStyleEnd, HasAt;
    ps, tail := [], doc[start..];
    var body, ending := LineFound(doc, start + 2);
    if ending == [] {
      TailStands(doc, start, start);
      LineCut(doc, start, body);
    } else {
      TwoBytes(doc, start);
      Joins(doc, start, [47, 47], body + ending);
      ps := [Line(body, ending)];
    }
  }

  lemma LineCut(doc: Text, start: nat, body: Text)
    requires start + 2 <= |doc| && doc[start] == 47 && doc[start + 1] == 47
    requires HasAt(doc, start + 2, body + []) && start + 2 + |body| == |doc|
    requires forall k :: 0 <= k < |body| ==> body[k] != 10 && body[k] != 13
    ensures CutShort(doc[start..])
  {
    var t := doc[start..];
    assert body + [] == body;
    forall k | 2 <= k < |t|
      ensures t[k] != 10 && t[k] != 13
    {
      HasAtIndex(doc, start + 2, body, k - 2);
    }
  }

  lemma TwoBytes(doc: Text, start: nat)
    requires start + 2 <= |doc|
    ensures HasAt(doc, start, [doc[start], doc[start + 1]])
  {
  }

  lemma StarsCut(doc: Text, start: nat)
    requires start + 2 <= |doc| && doc[start] == 47 && doc[start + 1] == 42
    requires forall k :: start + 2 <= k < |doc| - 1 ==> !(doc[k] == 42 && doc[k + 1] == 47)
    requires CStyleStop(doc, start + 2) == |doc| - 1 && CharAt(doc, |doc| - 1) == 47
    ensures CutShort(doc[start..])
  {
    var t := doc[start..];
    StopsBehind(doc, start + 2);
    forall k | 2 <= k < |t| - 1
      ensures !(t[k] == 42 && t[k + 1] == 47)
    {
      assert t[k] == doc[start + k] && t[k + 1] == doc[start + k + 1];
    }
  }

  lemma StopsBehind(doc: Text, pos: nat)
    requires pos <= |doc|
    ensures CStyleStop(doc, pos) >= pos
  {
  }

  lemma {:induction false} SpacesFound(doc: Text, pos: nat) returns (ps: Filler)
    requires pos <= |doc|
    ensures Blank(ps) && HasAt(doc, pos, FillerText(ps)) && SkipSpaces(doc, pos) == pos + |FillerText(ps)|
    ensures pos < |doc| && !White(doc[pos]) ==> ps == []
    decreases |doc| - pos
  {
    if pos < |doc| && White(doc[pos]) {
      var rest := SpacesFound(doc, pos + 1);
      ps := [Space(doc[pos])] + rest;
      OneMore(Space(doc[pos]), rest);
      assert HasAt(doc, pos, [doc[pos]]);
      Joins(doc, pos, [doc[pos]], FillerText(rest));
    } else {
      ps := [];
    }
  }

  /** A filler with one more piece in front. */
  lemma OneMore(p: Piece, rest: Filler)
    requires PieceWellFormed(p) && FillerWellFormed(rest)
    requires p.Line? && p.ending == [13] && rest != [] ==> rest[0] != Space(10)
    ensures FillerWellFormed([p] + rest) && FillerText([p] + rest) == PieceText(p) + FillerText(rest)
    ensures HasComment([p] + rest) <==> !p.Space? || HasComment(rest)
  {
    hide PieceWellFormed, PieceText;
    var ps := [p] + rest;
    assert ps[1..] == rest;
    RestComments(p, rest);
  }

  lemma RestComments(p: Piece, rest: Filler)
    ensures HasComment([p] + rest) <==> !p.Space? || HasComment(rest)
  {
    var ps := [p] + rest;
    if HasComment(rest) {
      var k :| 0 <= k < |rest| && !rest[k].Space?;
      assert !ps[k + 1].Space?;
    }
    if !p.Space? {
      assert !ps[0].Space?;
    }
  }

  /** Spaces in front of a filler. */
  lemma {:induction false} SpacesThen(spaces: Filler, rest: Filler)
    requires Blank(spaces) && FillerWellFormed(rest)
    ensures FillerWellFormed(spaces + rest) && FillerText(spaces + rest) == FillerText(spaces) + FillerText(rest)
    ensures HasComment(spaces + rest) <==> HasComment(rest)
  {
    hide PieceWellFormed, PieceText, FillerWellFormed, HasComment, FillerText;
    if spaces == [] {
      NoFiller();
      assert spaces + rest == rest && [] + FillerText(rest) == FillerText(rest);
    } else {
      BlankRest(spaces);
      SpacesThen(spaces[1..], rest);
      assert spaces + rest == [spaces[0]] + (spaces[1..] + rest) && spaces == [spaces[0]] + spaces[1..];
      OneMore(spaces[0], spaces[1..] + rest);
      OneMore(spaces[0], spaces[1..]);
    }
  }

  lemma BlankRest(spaces: Filler)
    requires Blank(spaces) && spaces != []
    ensures Blank(spaces[1..]) && FillerWellFormed(spaces[1..]) && spaces[0].Space? && PieceWellFormed(spaces[0])
  {
    hide PieceWellFormed;
    RestWellFormed(spaces);
  }

  /** What NonComment skips is a filler, and what ReadToken skips one without comments. */
  lemma {:induction false} FillerFound(f: Features, doc: Text, pos: nat) returns (ps: Filler)
    requires pos <= |doc| && NonComment(f, doc, pos).start < |doc|
    ensures FillerWellFormed(ps) && HasAt(doc, pos, FillerText(ps))
    ensures NonComment(f, doc, pos).start == pos + |FillerText(ps)|
    ensures HasComment(ps) <==> ReadToken(f, doc, pos).kind == CommentToken
    ensures pos < |doc| && !White(doc[pos]) && doc[pos] != 47 ==> ps == []
    decreases |doc| - pos
  {
    hide TokenAt, PieceWellFormed, PieceText, HasAt, HasComment, FillerWellFormed, NonComment, SkipSpaces, FillerText;
    var spaces := SpacesFound(doc, pos);
    var start := SkipSpaces(doc, pos);
    TokenStarts(f, doc, pos);
    NonCommentStep(f, doc, pos);
    SpacesStop(doc, pos);
    if TokenAt(f, doc, start).kind == CommentToken {
      CommentIs(f, doc, start);
      var middle := TokenAt(f, doc, start).end;
      var p := CommentFound(f, doc, start);
      var rest := FillerFound(f, doc, middle);
      BreakEnds(doc, middle, rest);
      OneMore(p, rest);
      Joins(doc, start, PieceText(p), FillerText(rest));
      SpacesThen(spaces, [p] + rest);
      Joins(doc, pos, FillerText(spaces), FillerText([p] + rest));
      ps := spaces + ([p] + rest);
    } else {
      ps := spaces;
    }
  }

  lemma NonCommentStep(f: Features, doc: Text, pos: nat)
    requires pos <= |doc|
    ensures NonComment(f, doc, pos) == if ReadToken(f, doc, pos).kind == CommentToken
      then NonComment(f, doc, ReadToken(f, doc, pos).end) else ReadToken(f, doc, pos)
  {
    hide TokenAt;
  }

  lemma SpacesStop(doc: Text, pos: nat)
    requires pos <= |doc|
    ensures pos < |doc| && !White(doc[pos]) ==> SkipSpaces(doc, pos) == pos
  {
  }

  lemma BreakEnds(doc: Text, pos: nat, rest: Filler)
    requires HasAt(doc, pos, FillerText(rest))
    ensures CharAt(doc, pos) != 10 && rest != [] ==> rest[0] != Space(10)
  {
    if rest != [] && rest[0] == Space(10) {
      HasAtIndex(doc, pos, FillerText(rest), 0);
    }
  }

  /** What is skipped in front of a value. */
  lemma LeadFound(f: Features, doc: Text, pos: nat) returns (ps: Filler)
    requires pos <= |doc| && SkipCommentTokens(f, doc, pos).start < |doc|
    ensures FillerWellFormed(ps) && HasAt(doc, pos, FillerText(ps))
    ensures SkipCommentTokens(f, doc, pos).start == pos + |FillerText(ps)|
    ensures HasComment(ps) ==> f.allowComments
    ensures pos < |doc| && !White(doc[pos]) && doc[pos] != 47 ==> ps == []
    ensures !HasComment(ps) ==> SkipSpaces(doc, pos) == pos + |FillerText(ps)|
  {
    hide TokenAt, HasAt, FillerText, FillerWellFormed, NonComment, HasComment;
    if f.allowComments {
      ps := FillerFound(f, doc, pos);
      NonCommentIs(f, doc, pos);
    } else {
      ps := SpacesFound(doc, pos);
    }
  }

  lemma NonCommentIs(f: Features, doc: Text, pos: nat)
    requires pos <= |doc|
    ensures ReadToken(f, doc, pos).kind != CommentToken ==> NonComment(f, doc, pos) == ReadToken(f, doc, pos)
    ensures ReadToken(f, doc, pos).start == SkipSpaces(doc, pos)
  {
  }

  // ----- strings -----

  lemma {:induction false} ScanIsClosed(doc: Text, pos: nat, last: nat, quote: Byte)
    requires pos <= last < |doc| && JsonString.Scan(doc, pos, quote) == (true, last + 1) && quote != 92
    ensures doc[last] == quote && Closed(doc[pos..last], quote)
    decreases last - pos
  {
    var t := doc[pos..last];
    if doc[pos] == 92 {
      ScanIsClosed(doc, pos + 2, last, quote);
      assert t[2..] == doc[pos + 2..last];
    } else if doc[pos] != quote {
      ScanIsClosed(doc, pos + 1, last, quote);
      assert t[1..] == doc[pos + 1..last];
    } else {
      assert t == [];
    }
  }

  lemma ScanStep(doc: Text, pos: nat, last: nat, quote: Byte)
    requires pos < last < |doc| && JsonString.Scan(doc, pos, quote) == (true, last + 1)
    ensures doc[pos] != 92 ==> doc[pos] != quote && JsonString.Scan(doc, pos + 1, quote) == (true, last + 1)
    ensures doc[pos] == 92 ==> pos + 2 <= last && JsonString.Scan(doc, pos + 2, quote) == (true, last + 1)
  {
  }

  lemma ScanHex(doc: Text, pos: nat, last: nat, quote: Byte)
    requires pos + 6 <= last < |doc| && JsonString.Scan(doc, pos, quote) == (true, last + 1)
    requires doc[pos] == 92 && doc[pos + 1] == 117
    requires JsonString.FourHexDigits(doc, pos + 2, last).Got?
    ensures JsonString.Scan(doc, pos + 6, quote) == (true, last + 1)
    ensures var h := doc[pos + 2..pos + 6];
      CharWellFormed(Hex(h)) && HasAt(doc, pos, CharText(Hex(h)))
      && JsonString.FourHexDigits(doc, pos + 2, last) == JsonString.Got(HexNumber(h), pos + 6)
  {
    hide JsonString.Scan, HexByte, JsonString.HexValue;
    var h := doc[pos + 2..pos + 6];
    HexByteIs(h[0]);
    HexByteIs(h[1]);
    HexByteIs(h[2]);
    HexByteIs(h[3]);
    HexIsNoMark(h[0]);
    HexIsNoMark(h[1]);
    HexIsNoMark(h[2]);
    HexIsNoMark(h[3]);
    ScanStep(doc, pos, last, quote);
    ScanStep(doc, pos + 2, last, quote);
    ScanStep(doc, pos + 3, last, quote);
    ScanStep(doc, pos + 4, last, quote);
    ScanStep(doc, pos + 5, last, quote);
    HexRead(doc, pos + 2, last, h);
    assert doc[pos..pos + 6] == [92, 117] + h;
  }

  lemma HexIsNoMark(b: Byte)
    ensures HexByte(b) ==> b != 92
  {
  }

  lemma CharsFront(head: seq<Char>, rest: seq<Char>, tail: Text)
    ensures CharsText(head + rest) + tail == CharsText(head) + (CharsText(rest) + tail)
    ensures |CharsText(head + rest)| == |CharsText(head)| + |CharsText(rest)|
  {
    hide CharsText;
    CharsConcat(head, rest);
  }

  /** A successful unescaping goes from character to character. */
  lemma {:induction false} CharsFound(doc: Text, cur: nat, last: nat, acc: Text, quote: Byte)
      returns (chars: seq<Char>, tail: Text)
    requires cur <= last < |doc| && JsonString.Scan(doc, cur, quote) == (true, last + 1)
    requires (quote == 34 || quote == 39) && JsonString.DecodeFrom(doc, cur, last, acc).Plain?
    ensures CharsWellFormed(chars) && forall k :: 0 <= k < |chars| ==> chars[k] != Raw(quote)
    ensures tail != [] ==> quote == 39 && tail[0] == 34 && Closed(tail, 39)
    ensures HasAt(doc, cur, CharsText(chars) + tail) && cur + |CharsText(chars)| + |tail| == last
    decreases last - cur
  {
    hide HasAt, CharText, CharsText, CharWellFormed, JsonString.Scan, Closed, HexNumber;
    if cur == last || doc[cur] == 34 {
      chars, tail := [], doc[cur..last];
      ScanIsClosed(doc, cur, last, quote);
      NothingFound(doc, cur, last);
      if cur < last {
        ScanStep(doc, cur, last, quote);
      }
    } else {
      ScanStep(doc, cur, last, quote);
      var head: seq<Char>, next: nat := CharFound(doc, cur, last, acc, quote);
      chars, tail := CharsFound(doc, next, last, DecodedAfter(doc, cur, last, acc), quote);
      CharsFront(head, chars, tail);
      Joins(doc, cur, CharsText(head), CharsText(chars) + tail);
      chars := head + chars;
    }
  }

  lemma NothingFound(doc: Text, cur: nat, last: nat)
    requires cur <= last < |doc|
    ensures HasAt(doc, cur, CharsText([]) + doc[cur..last]) && |CharsText([])| == 0
  {
    assert CharsText([]) + doc[cur..last] == doc[cur..last];
  }

  /** The text decoded once the first character is. */
  function DecodedAfter(doc: Text, cur: nat, last: nat, acc: Text): (t: Text)
    requires cur < last < |doc|
  {
    if doc[cur] != 92 then acc + [doc[cur]]
    else if cur + 1 == last then acc
    else if doc[cur + 1] == 117 then
      match JsonString.CodePointEscape(doc, cur + 2, last)
      case Bad(_) => acc
      case Got(cp, _) => acc + Utf8.Encode(cp)
    else if JsonString.Unescaped(doc[cur + 1]) < 0 then acc
    else acc + [JsonString.Unescaped(doc[cur + 1])]
  }

  /** The first character, or a surrogate pair, of a text that can be unescaped. */
  lemma CharFound(doc: Text, cur: nat, last: nat, acc: Text, quote: Byte) returns (head: seq<Char>, next: nat)
    requires cur < last < |doc| && JsonString.Scan(doc, cur, quote) == (true, last + 1)
    requires (quote == 34 || quote == 39) && JsonString.DecodeFrom(doc, cur, last, acc).Plain? && doc[cur] != 34
    ensures (|head| == 1 || |head| == 2) && CharsWellFormed(head)
    ensures forall k :: 0 <= k < |head| ==> head[k] != Raw(quote)
    ensures cur < next <= last && JsonString.Scan(doc, next, quote) == (true, last + 1)
    ensures HasAt(doc, cur, CharsText(head)) && next == cur + |CharsText(head)|
    ensures JsonString.DecodeFrom(doc, cur, last, acc)
         == JsonString.DecodeFrom(doc, next, last, DecodedAfter(doc, cur, last, acc))
  {
    hide JsonString.Scan, JsonString.FourHexDigits, HexNumber, JsonString.CodePointEscape, CharsText;
    ScanStep(doc, cur, last, quote);
    if doc[cur] != 92 {
      head, next := [Raw(doc[cur])], cur + 1;
      SingleChar(head[0]);
    } else if doc[cur + 1] != 117 {
      head, next := [Short(doc[cur + 1])], cur + 2;
      SingleChar(head[0]);
      assert doc[cur..cur + 2] == CharText(head[0]);
    } else {
      head, next := EscapeFound(doc, cur, last, acc, quote);
    }
  }

  lemma EscapeFound(doc: Text, cur: nat, last: nat, acc: Text, quote: Byte) returns (head: seq<Char>, next: nat)
    requires cur + 2 <= last < |doc| && JsonString.Scan(doc, cur, quote) == (true, last + 1)
    requires (quote == 34 || quote == 39) && JsonString.DecodeFrom(doc, cur, last, acc).Plain?
    requires doc[cur] == 92 && doc[cur + 1] == 117
    ensures (|head| == 1 || |head| == 2) && CharsWellFormed(head)
    ensures forall k :: 0 <= k < |head| ==> head[k] != Raw(quote)
    ensures cur < next <= last && JsonString.Scan(doc, next, quote) == (true, last + 1)
    ensures HasAt(doc, cur, CharsText(head)) && next == cur + |CharsText(head)|
    ensures JsonString.DecodeFrom(doc, cur, last, acc)
         == JsonString.DecodeFrom(doc, next, last, DecodedAfter(doc, cur, last, acc))
  {
    hide JsonString.Scan, JsonString.FourHexDigits, JsonString.DecodeFrom, HexNumber, CharText, CharWellFormed, HasAt;
    UnicodeStep(doc, cur, last, acc);
    ScanHex(doc, cur, last, quote);
    var first := Hex(doc[cur + 2..cur + 6]);
    HexLength(first);
    SingleChar(first);
    next := JsonString.CodePointEscape(doc, cur + 2, last).next;
    if next == cur + 6 {
      head := [first];
    } else {
      ScanHex(doc, cur + 6, last, quote);
      var second := Hex(doc[cur + 8..cur + 12]);
      HexLength(second);
      SingleChar(second);
      head := [first] + [second];
      CharsConcat([first], [second]);
      Joins(doc, cur, CharText(first), CharText(second));
    }
  }

  /** A string token that can be unescaped. */
  lemma QuotationFound(f: Features, doc: Text, start: nat) returns (q: Quotation)
    requires start <= |doc| && TokenAt(f, doc, start).kind == StringToken
    requires JsonString.Decode(doc, start, TokenAt(f, doc, start).end).Plain?
    ensures QuotationWellFormed(q) && HasAt(doc, start, QuotationText(q))
    ensures TokenAt(f, doc, start).end == start + |QuotationText(q)|
    ensures QuotationMeaning(q) == JsonString.Decode(doc, start, TokenAt(f, doc, start).end)
    ensures q.single ==> f.allowSingleQuotes
  {
    hide TokenAt, HasAt, CharsText, CharsWellFormed, Closed, JsonString.Scan, JsonString.DecodeFrom, QuotationMeaning;
    StringIs(f, doc, start);
    var quote, last := doc[start], TokenAt(f, doc, start).end - 1;
    var chars, tail := CharsFound(doc, start + 1, last, [], quote);
    q := Quotation(quote == 39, chars, tail);
    QuotationAt(doc, start, last, q);
    StringRead(f, doc, start, q);
  }

  lemma StringIs(f: Features, doc: Text, start: nat)
    requires start <= |doc| && TokenAt(f, doc, start).kind == StringToken
    ensures start < |doc| && (doc[start] == 34 || (doc[start] == 39 && f.allowSingleQuotes))
    ensures var end := TokenAt(f, doc, start).end;
      && start + 2 <= end <= |doc|
      && JsonString.Scan(doc, start + 1, doc[start]) == (true, end) && doc[end - 1] == doc[start]
  {
    hide JsonString.Scan;
  }

  lemma QuotationAt(doc: Text, start: nat, last: nat, q: Quotation)
    requires start < last < |doc| && doc[start] == Mark(q) == doc[last]
    requires HasAt(doc, start + 1, CharsText(q.chars) + q.tail)
    requires start + 1 + |CharsText(q.chars)| + |q.tail| == last
    ensures HasAt(doc, start, QuotationText(q)) && |QuotationText(q)| == last + 1 - start
  {
    hide CharsText;
    var body, quote := CharsText(q.chars) + q.tail, [Mark(q)];
    assert HasAt(doc, start, quote) && HasAt(doc, last, quote);
    Joins(doc, start + 1, body, quote);
    Joins(doc, start, quote, body + quote);
  }

  // ----- numbers and words -----

  lemma {:induction false} DigitsFound(doc: Text, pos: nat)
    requires pos <= |doc|
    ensures AreDigits(doc[pos..DigitsEnd(doc, pos)])
    decreases |doc| - pos
  {
    if pos < |doc| && IsDigit(doc[pos]) {
      DigitsFound(doc, pos + 1);
      assert doc[pos..DigitsEnd(doc, pos)] == [doc[pos]] + doc[pos + 1..DigitsEnd(doc, pos)];
    }
  }

  lemma FractionFound(doc: Text, pos: nat)
    requires pos <= |doc|
    ensures FractionWellFormed(doc[pos..FractionEnd(doc, pos)])
  {
    if CharAt(doc, pos) == 46 {
      DigitsFound(doc, pos + 1);
      assert doc[pos..FractionEnd(doc, pos)][1..] == doc[pos + 1..DigitsEnd(doc, pos + 1)];
    }
  }

  lemma ExponentFound(doc: Text, pos: nat)
    requires pos <= |doc|
    ensures ExponentWellFormed(doc[pos..ExponentEnd(doc, pos)])
  {
    var t := doc[pos..ExponentEnd(doc, pos)];
    if CharAt(doc, pos) == 101 || CharAt(doc, pos) == 69 {
      var sign := CharAt(doc, pos + 1);
      var digits := if sign == 43 || sign == 45 then pos + 2 else pos + 1;
      DigitsFound(doc, digits);
      assert t[digits - pos..] == doc[digits..DigitsEnd(doc, digits)];
      NotASign(doc, pos + 1);
    }
  }

  lemma NotASign(doc: Text, pos: nat)
    requires pos <= |doc|
    ensures DigitsEnd(doc, pos) > pos ==> 48 <= doc[pos] <= 57
  {
  }

  lemma NumeralFound(f: Features, doc: Text, start: nat) returns (n: Numeral)
    requires start <= |doc| && TokenAt(f, doc, start).kind == NumberToken
    ensures NumeralWellFormed(n) && HasAt(doc, start, NumeralText(n))
    ensures TokenAt(f, doc, start).end == start + |NumeralText(n)|
  {
    hide TokenAt, HasAt, NumberEnd, NumeralWellFormed, NumeralText;
    NumberIs(f, doc, start);
    var sign := if doc[start] == 45 then MinusSign else if doc[start] == 43 then PlusSign else NoSign;
    SignAt(doc, start, sign);
    n := MagnitudeFound(doc, if sign == NoSign then start else start + 1, sign);
    NumeralAt(doc, start, n);
  }

  /** The parts of a number behind its sign. */
  lemma MagnitudeFound(doc: Text, first: nat, sign: Sign) returns (n: Numeral)
    requires first <= |doc| && (sign == NoSign ==> DigitsEnd(doc, first) > first)
    ensures NumeralWellFormed(n) && n.sign == sign
    ensures HasAt(doc, first, n.digits) && HasAt(doc, first + |n.digits|, n.fraction)
    ensures HasAt(doc, first + |n.digits| + |n.fraction|, n.exponent)
    ensures NumberEnd(doc, first) == first + |n.digits| + |n.fraction| + |n.exponent|
  {
    hide HasAt, FractionWellFormed, ExponentWellFormed, FractionEnd, ExponentEnd, DigitsEnd;
    var point := DigitsEnd(doc, first);
    var letter := FractionEnd(doc, point);
    var end := ExponentEnd(doc, letter);
    DigitsFound(doc, first);
    FractionFound(doc, point);
    ExponentFound(doc, letter);
    n := Numeral(sign, doc[first..point], doc[point..letter], doc[letter..end]);
    StandsThere(doc, first, point);
    StandsThere(doc, point, letter);
    StandsThere(doc, letter, end);
  }

  lemma SignAt(doc: Text, start: nat, sign: Sign)
    requires start < |doc| && (sign == MinusSign ==> doc[start] == 45) && (sign == PlusSign ==> doc[start] == 43)
    ensures HasAt(doc, start, SignText(sign))
  {
  }

  lemma NumeralAt(doc: Text, start: nat, n: Numeral)
    requires var first := start + |SignText(n.sign)|;
      && HasAt(doc, start, SignText(n.sign)) && HasAt(doc, first, n.digits)
      && HasAt(doc, first + |n.digits|, n.fraction)
      && HasAt(doc, first + |n.digits| + |n.fraction|, n.exponent)
    ensures HasAt(doc, start, NumeralText(n))
    ensures |NumeralText(n)| == |SignText(n.sign)| + |n.digits| + |n.fraction| + |n.exponent|
  {
    hide HasAt, SignText;
    var first := start + |SignText(n.sign)|;
    Joins(doc, first + |n.digits|, n.fraction, n.exponent);
    Joins(doc, first, n.digits, n.fraction + n.exponent);
    Joins(doc, start, SignText(n.sign), n.digits + (n.fraction + n.exponent));
  }

  lemma NumberIs(f: Features, doc: Text, start: nat)
    requires start <= |doc| && TokenAt(f, doc, start).kind == NumberToken
    ensures start < |doc| && (IsDigit(doc[start]) || doc[start] == 45 || doc[start] == 43)
    ensures IsDigit(doc[start]) ==>
      TokenAt(f, doc, start).end == NumberEnd(doc, start) && DigitsEnd(doc, start) > start
    ensures !IsDigit(doc[start]) ==> TokenAt(f, doc, start).end == NumberEnd(doc, start + 1)
  {
    hide ExponentEnd, FractionEnd;
  }

  lemma NumberMeans(c: Config, doc: Text, t: Token, n: Numeral)
    requires t.start <= t.end <= |doc| && doc[t.start..t.end] == NumeralText(n) && NumeralWellFormed(n)
    ensures JsonParser.DecodeNumber(c, doc, t) == NumberMeaning(c, n)
  {
    hide DecodedInteger, Decimal, NumeralText, NumeralWellFormed;
    NumeralDecodes(n);
  }

  predicate IsWordKind(k: Kind) {
    k in {TrueToken, FalseToken, NullToken, NaNToken, PosInfToken, NegInfToken}
  }

  /** The tree of a token that is a word. */
  lemma WordFound(f: Features, doc: Text, start: nat) returns (t: Syntax)
    requires start <= |doc| && IsWordKind(TokenAt(f, doc, start).kind)
    ensures (IsWord(t) || t.SpecialSyntax?) && HasAt(doc, start, SyntaxText(t))
    ensures TokenAt(f, doc, start).end == start + |SyntaxText(t)| && (t.SpecialSyntax? ==> f.allowSpecialFloats)
    ensures var kind := TokenAt(f, doc, start).kind;
      && (kind == NullToken <==> t == NullSyntax) && (kind == TrueToken <==> t == BoolSyntax(true))
      && (kind == FalseToken <==> t == BoolSyntax(false)) && (kind == NaNToken <==> t == SpecialSyntax(NotANumberWord))
      && (kind == NegInfToken <==> t == SpecialSyntax(MinusInfinityWord))
  {
    hide TokenAt, HasAt;
    WordIs(f, doc, start);
    var kind := TokenAt(f, doc, start).kind;
    BracketAt(doc, start);
    match kind
    case NullToken =>
      t := NullSyntax;
      Joins(doc, start, [110], ULL);
      assert SyntaxText(t) == [110] + ULL;
    case TrueToken =>
      t := BoolSyntax(true);
      Joins(doc, start, [116], RUE);
      assert SyntaxText(t) == [116] + RUE;
    case FalseToken =>
      t := BoolSyntax(false);
      Joins(doc, start, [102], ALSE);
      assert SyntaxText(t) == [102] + ALSE;
    case NaNToken =>
      t := SpecialSyntax(NotANumberWord);
      Joins(doc, start, [78], AN);
      assert SyntaxText(t) == [78] + AN;
    case _ =>
      t := InfinityFound(f, doc, start);
  }

  lemma InfinityFound(f: Features, doc: Text, start: nat) returns (t: Syntax)
    requires start <= |doc| && TokenAt(f, doc, start).kind in {PosInfToken, NegInfToken}
    ensures t.SpecialSyntax? && HasAt(doc, start, SyntaxText(t)) && t != SpecialSyntax(NotANumberWord)
    ensures TokenAt(f, doc, start).end == start + |SyntaxText(t)|
    ensures TokenAt(f, doc, start).kind == NegInfToken <==> t == SpecialSyntax(MinusInfinityWord)
    ensures f.allowSpecialFloats
  {
    hide TokenAt, HasAt;
    InfinityIs(f, doc, start);
    BracketAt(doc, start);
    if doc[start] == 73 {
      t := SpecialSyntax(InfinityWord);
      Joins(doc, start, [73], NFINITY);
      assert SyntaxText(t) == [73] + NFINITY;
    } else {
      BracketAt(doc, start + 1);
      Joins(doc, start + 1, [73], NFINITY);
      Joins(doc, start, [doc[start]], [73] + NFINITY);
      t := SpecialSyntax(if doc[start] == 45 then MinusInfinityWord else PlusInfinityWord);
      assert SyntaxText(t) == [doc[start]] + ([73] + NFINITY);
    }
  }

  /** The bytes of a token that is a word. */
  lemma WordIs(f: Features, doc: Text, start: nat)
    requires start <= |doc| && IsWordKind(TokenAt(f, doc, start).kind)
    ensures start < |doc|
    ensures var token := TokenAt(f, doc, start);
      && (token.kind == NullToken ==> doc[start] == 110 && HasAt(doc, start + 1, ULL) && token.end == start + 4)
      && (token.kind == TrueToken ==> doc[start] == 116 && HasAt(doc, start + 1, RUE) && token.end == start + 4)
      && (token.kind == FalseToken ==> doc[start] == 102 && HasAt(doc, start + 1, ALSE) && token.end == start + 5)
      && (token.kind == NaNToken ==>
            doc[start] == 78 && HasAt(doc, start + 1, AN) && token.end == start + 3 && f.allowSpecialFloats)
  {
    hide HasAt;
  }

  lemma InfinityIs(f: Features, doc: Text, start: nat)
    requires start <= |doc| && TokenAt(f, doc, start).kind in {PosInfToken, NegInfToken}
    ensures start < |doc| && f.allowSpecialFloats
    ensures var token := TokenAt(f, doc, start);
      && (doc[start] == 73 ==>
            token.kind == PosInfToken && HasAt(doc, start + 1, NFINITY) && token.end == start + 8)
      && (doc[start] != 73 ==>
            && start + 1 < |doc| && doc[start + 1] == 73 && HasAt(doc, start + 2, NFINITY) && token.end == start + 9
            && doc[start] == if token.kind == NegInfToken then 45 else 43)
  {
    hide HasAt;
  }

  // ----- values -----

  /** A tree for what was read from `pos`. */
  ghost predicate Derived(c: Config, doc: Text, pos: nat, depth: nat, p: Parsed, before: Filler, t: Syntax) {
    && FillerWellFormed(before) && Grammatical(t)
    && HasAt(doc, pos, FillerText(before)) && HasAt(doc, pos + |FillerText(before)|, SyntaxText(t))
    && p.pos == pos + |FillerText(before)| + |SyntaxText(t)| <= |doc|
    && ReadBehind(c, before, t, Levels(c, depth)) == Gives(p.val)
    && (t.Dropped? ==> p.pos < |doc| && doc[p.pos] in {44, 93, 125}
                       && (!HasComment(before) ==> SkipSpaces(doc, pos) == p.pos))
  }

  /** A token that is a whole value. */
  lemma LeafFound(c: Config, doc: Text, start: nat, prior: Value) returns (t: Syntax)
    requires start <= |doc| && TokenAt(c.features, doc, start).kind !in {ObjectBegin, ArrayBegin}
    requires Leaf(c, doc, TokenAt(c.features, doc, start), prior).outcome == Success
    ensures start < |doc| && IsLeaf(t) && Grammatical(t) && HasAt(doc, start, SyntaxText(t))
    ensures var p := Leaf(c, doc, TokenAt(c.features, doc, start), prior);
      && p.pos == start + |SyntaxText(t)| <= |doc| && Read(c, t, 1) == Gives(p.val)
      && (t.Dropped? ==> p.pos < |doc| && doc[p.pos] in {44, 93, 125})
  {
    hide TokenAt, HasAt, SpecialText, JsonParser.DecodeNumber, JsonString.Decode;
    var token := TokenAt(c.features, doc, start);
    if token.kind == NumberToken {
      t := NumberFound(c, doc, start, prior);
    } else if token.kind == StringToken {
      t := TextFound(c, doc, start, prior);
    } else if IsWordKind(token.kind) {
      t := WordFound(c.features, doc, start);
      WordReadsAs(c, doc, token, prior, t);
      HasAtBound(doc, start, SyntaxText(t));
    } else {
      ClosingIs(c.features, doc, start);
      NothingAt(doc, start);
      t := Dropped;
    }
  }

  lemma NumberFound(c: Config, doc: Text, start: nat, prior: Value) returns (t: Syntax)
    requires start <= |doc| && TokenAt(c.features, doc, start).kind == NumberToken
    requires Leaf(c, doc, TokenAt(c.features, doc, start), prior).outcome == Success
    ensures start < |doc| && t.NumberSyntax? && Grammatical(t) && HasAt(doc, start, SyntaxText(t))
    ensures var p := Leaf(c, doc, TokenAt(c.features, doc, start), prior);
      p.pos == start + |SyntaxText(t)| <= |doc| && Read(c, t, 1) == Gives(p.val)
  {
    hide TokenAt, HasAt, NumeralText, NumeralWellFormed, NumberMeaning, JsonParser.DecodeNumber;
    var n := NumeralFound(c.features, doc, start);
    HasAtIs(doc, start, NumeralText(n));
    NumberMeans(c, doc, TokenAt(c.features, doc, start), n);
    NumberIs(c.features, doc, start);
    t := NumberSyntax(n);
  }

  lemma TextFound(c: Config, doc: Text, start: nat, prior: Value) returns (t: Syntax)
    requires start <= |doc| && TokenAt(c.features, doc, start).kind == StringToken
    requires Leaf(c, doc, TokenAt(c.features, doc, start), prior).outcome == Success
    ensures start < |doc| && t.StringSyntax? && Grammatical(t) && HasAt(doc, start, SyntaxText(t))
    ensures var p := Leaf(c, doc, TokenAt(c.features, doc, start), prior);
      p.pos == start + |SyntaxText(t)| <= |doc| && Read(c, t, 1) == Gives(p.val)
  {
    hide TokenAt, HasAt, QuotationText, QuotationWellFormed, QuotationMeaning, JsonString.Decode;
    StringIs(c.features, doc, start);
    var q := QuotationFound(c.features, doc, start);
    HasAtBound(doc, start, QuotationText(q));
    t := StringSyntax(q);
  }

  lemma NothingAt(doc: Text, start: nat)
    requires start <= |doc|
    ensures HasAt(doc, start, SyntaxText(Dropped))
  {
  }

  lemma WordReadsAs(c: Config, doc: Text, token: Token, prior: Value, t: Syntax)
    requires IsWordKind(token.kind) && token.start < token.end <= |doc|
    requires (IsWord(t) || t.SpecialSyntax?) && (t.SpecialSyntax? ==> c.features.allowSpecialFloats)
    requires var kind := token.kind;
      && (kind == NullToken <==> t == NullSyntax) && (kind == TrueToken <==> t == BoolSyntax(true))
      && (kind == FalseToken <==> t == BoolSyntax(false)) && (kind == NaNToken <==> t == SpecialSyntax(NotANumberWord))
      && (kind == NegInfToken <==> t == SpecialSyntax(MinusInfinityWord))
    ensures Read(c, t, 1) == Gives(Leaf(c, doc, token, prior).val) && Leaf(c, doc, token, prior).pos == token.end
  {
  }

  lemma ClosingIs(f: Features, doc: Text, start: nat)
    requires start <= |doc| && Closes(TokenAt(f, doc, start).kind)
    ensures start < |doc| && doc[start] in {44, 93, 125} && TokenAt(f, doc, start).end == start + 1
  {
  }

  lemma BracketIs(f: Features, doc: Text, start: nat)
    requires start <= |doc| && TokenAt(f, doc, start).kind in {ObjectBegin, ArrayBegin, ObjectEnd, ArrayEnd,
                                                              ArraySeparator, MemberSeparator}
    ensures start < |doc| && TokenAt(f, doc, start).end == start + 1
    ensures var kind := TokenAt(f, doc, start).kind;
      doc[start] == if kind == ObjectBegin then 123 else if kind == ArrayBegin then 91
        else if kind == ObjectEnd then 125 else if kind == ArrayEnd then 93
        else if kind == ArraySeparator then 44 else 58
  {
  }

  lemma TokenStarts(f: Features, doc: Text, pos: nat)
    requires pos <= |doc|
    ensures ReadToken(f, doc, pos) == TokenAt(f, doc, ReadToken(f, doc, pos).start)
    ensures ReadToken(f, doc, pos).start == SkipSpaces(doc, pos)
    ensures SkipSpaces(doc, SkipSpaces(doc, pos)) == SkipSpaces(doc, pos)
  {
    hide TokenAt;
  }

  lemma {:induction false} NonCommentStarts(f: Features, doc: Text, pos: nat)
    requires pos <= |doc|
    ensures NonComment(f, doc, pos) == TokenAt(f, doc, NonComment(f, doc, pos).start)
    decreases |doc| - pos
  {
    hide TokenAt;
    TokenStarts(f, doc, pos);
    if ReadToken(f, doc, pos).kind == CommentToken {
      NonCommentStarts(f, doc, ReadToken(f, doc, pos).end);
    }
  }

  lemma {:induction false} ValueDerives(c: Config, doc: Text, pos: nat, depth: nat, prior: Value)
      returns (before: Filler, t: Syntax)
    requires pos <= |doc| && ParseValue(c, doc, pos, depth, prior).outcome == Success
    ensures depth <= c.features.stackLimit
    ensures Derived(c, doc, pos, depth, ParseValue(c, doc, pos, depth, prior), before, t)
    decreases |doc| - pos, 0
  {
    hide ParseMembers, ParseElements, Leaf, TokenAt, NonComment, HasAt, FillerText, FillerWellFormed, HasComment;
    hide Grammatical, Read, SyntaxText, Derived, SkipCommentTokens, ElementsFound, MembersFound;
    var token := SkipCommentTokens(c.features, doc, pos);
    LeadStarts(c.features, doc, pos);
    var start := token.start;
    if token.kind == ObjectBegin {
      BracketIs(c.features, doc, start);
      var members, trailing, blank := MembersDerive(c, doc, token.end, depth, true, []);
      t := ObjectFound(c, doc, start, depth, members, trailing, blank);
    } else if token.kind == ArrayBegin {
      BracketIs(c.features, doc, start);
      var elements, blank := ElementsDerive(c, doc, token.end, depth, []);
      t := ArrayFound(c, doc, start, depth, elements, blank);
    } else {
      t := LeafFound(c, doc, start, prior);
      LeafReading(c, t, Levels(c, depth));
    }
    before := LeadFound(c.features, doc, pos);
    DerivedIs(c, doc, pos, depth, ParseValue(c, doc, pos, depth, prior), before, t);
  }

  lemma LeadStarts(f: Features, doc: Text, pos: nat)
    requires pos <= |doc|
    ensures SkipCommentTokens(f, doc, pos) == TokenAt(f, doc, SkipCommentTokens(f, doc, pos).start)
  {
    hide TokenAt, NonComment;
    TokenStarts(f, doc, pos);
    NonCommentStarts(f, doc, pos);
  }

  lemma DerivedIs(c: Config, doc: Text, pos: nat, depth: nat, p: Parsed, before: Filler, t: Syntax)
    requires FillerWellFormed(before) && Grammatical(t) && pos <= |doc|
    requires HasAt(doc, pos, FillerText(before)) && HasAt(doc, pos + |FillerText(before)|, SyntaxText(t))
    requires p.pos == pos + |FillerText(before)| + |SyntaxText(t)| <= |doc|
    requires Read(c, t, Levels(c, depth)) == Gives(p.val) && (HasComment(before) ==> c.features.allowComments)
    requires t.Dropped? ==> p.pos < |doc| && doc[p.pos] in {44, 93, 125}
    requires !HasComment(before) ==> SkipSpaces(doc, pos) == pos + |FillerText(before)|
    ensures Derived(c, doc, pos, depth, p, before, t)
  {
    hide HasAt, FillerText, FillerWellFormed, HasComment, Grammatical, Read, SyntaxText;
    BehindIs(c, before, t, Levels(c, depth));
    DroppedText(t);
  }

  lemma DroppedText(t: Syntax)
    ensures t.Dropped? ==> SyntaxText(t) == []
  {
  }

  lemma BehindIs(c: Config, before: Filler, t: Syntax, levels: int)
    requires HasComment(before) ==> c.features.allowComments
    ensures ReadBehind(c, before, t, levels) == Read(c, t, levels)
  {
  }

  lemma ArrayFound(c: Config, doc: Text, start: nat, depth: nat, elements: seq<Element>, blank: Filler)
      returns (t: Syntax)
    requires start < |doc| && doc[start] == 91 && depth <= c.features.stackLimit
    requires ElementsFound(c, doc, start + 1, depth, [], ParseElements(c, doc, start + 1, depth, []), elements, blank)
    ensures !t.Dropped? && Grammatical(t) && HasAt(doc, start, SyntaxText(t))
    ensures var p := ParseElements(c, doc, start + 1, depth, []);
      p.pos == start + |SyntaxText(t)| <= |doc| && Read(c, t, Levels(c, depth)) == Gives(p.val)
  {
    hide ParseElements, HasAt, FillerText, ElementsText, ReadElements;
    t := ArraySyntax(elements, blank);
    NothingRead(c, Levels(c, depth + 1), []);
    BracketAt(doc, start);
    Joins(doc, start, [91], SyntaxText(t)[1..]);
    assert SyntaxText(t) == [91] + SyntaxText(t)[1..];
  }

  lemma BracketAt(doc: Text, start: nat)
    requires start < |doc|
    ensures HasAt(doc, start, [doc[start]])
  {
  }

  lemma ObjectFound(c: Config, doc: Text, start: nat, depth: nat, members: seq<Entry>, trailing: bool, blank: Filler)
      returns (t: Syntax)
    requires start < |doc| && doc[start] == 123 && depth <= c.features.stackLimit
    requires var p := ParseMembers(c, doc, start + 1, depth, true, []);
      MembersFound(c, doc, start + 1, depth, true, [], p, members, trailing, blank)
    ensures !t.Dropped? && Grammatical(t) && HasAt(doc, start, SyntaxText(t))
    ensures var p := ParseMembers(c, doc, start + 1, depth, true, []);
      p.pos == start + |SyntaxText(t)| <= |doc| && Read(c, t, Levels(c, depth)) == Gives(p.val)
  {
    hide ParseMembers, HasAt, FillerText, FillerWellFormed, NameWellFormed, Blank, Separates;
    t := ObjectSyntax(members, trailing && members != [], blank);
    BracketAt(doc, start);
    hide MembersText, ReadMembers;
    TrailingOrNot(c, members, trailing, blank, Levels(c, depth + 1));
    Joins(doc, start, [123], SyntaxText(t)[1..]);
    assert SyntaxText(t) == [123] + SyntaxText(t)[1..];
  }

  /** Without members it makes no difference whether a separator trails. */
  lemma TrailingOrNot(c: Config, members: seq<Entry>, trailing: bool, blank: Filler, levels: int)
    ensures MembersText(members, trailing && members != [], blank) == MembersText(members, trailing, blank)
    ensures ReadMembers(c, members, trailing && members != [], levels, true, [])
         == ReadMembers(c, members, trailing, levels, true, [])
  {
    hide FillerText, NameText, SyntaxText, ReadNamed;
  }

  // ----- elements -----

  /** Elements for what was read from `pos`, behind `done`. */
  ghost predicate ElementsFound(c: Config, doc: Text, pos: nat, depth: nat, done: seq<Slot>, p: Parsed,
                                elements: seq<Element>, blank: Filler) {
    if elements == [] then
      && Blank(blank) && done == [] && HasAt(doc, pos, FillerText(blank) + [93])
      && p.pos == pos + |FillerText(blank)| + 1 <= |doc| && p.val == ArrayValue([])
    else
      && blank == [] && ElementsWellFormed(elements) && HasAt(doc, pos, ElementsText(elements))
      && p.pos == pos + |ElementsText(elements)| <= |doc|
      && ReadElements(c, elements, Levels(c, depth + 1), done) == Gives(p.val)
      && (done == [] ==> !(|elements| == 1 && Omitted(elements[0])))
  }

  lemma {:induction false} ElementsDerive(c: Config, doc: Text, pos: nat, depth: nat, done: seq<Slot>)
      returns (elements: seq<Element>, blank: Filler)
    requires pos <= |doc| && depth <= c.features.stackLimit
    requires ParseElements(c, doc, pos, depth, done).outcome == Success
    ensures ElementsFound(c, doc, pos, depth, done, ParseElements(c, doc, pos, depth, done), elements, blank)
    decreases |doc| - pos, 3
  {
    hide ParseElements, ParseValue, AfterElement, SkipSpaces, Derived, ElementsFound, BehindFound, FillerText;
    ElementsUnfold(c, doc, pos, depth, done);
    var start := SkipSpaces(doc, pos);
    if start < |doc| && doc[start] == 93 && ArrayMayClose(c.features, done) {
      var spaces := SpacesFound(doc, pos);
      BracketAt(doc, start);
      elements, blank := ArrayCloses(c, doc, pos, depth, done, spaces);
    } else {
      var r := ElementRead(c, doc, pos, depth, done);
      var before, t := ValueDerives(c, doc, pos, depth + 1, NullValue);
      var behind, at := NextElement(c, doc, depth, done + [Item(r.val)], r);
      var rest: seq<Element> := [];
      blank := [];
      if doc[at] == 44 {
        rest, blank := ElementsDerive(c, doc, at + 1, depth, done + [Item(r.val)]);
        MoreAreThere(c, doc, at + 1, depth, done + [Item(r.val)], rest, blank);
      }
      elements := [Element(before, t, behind)] + rest;
      ElementsJoin(c, doc, pos, depth, done, r, before, t, behind, at, rest);
    }
  }

  lemma MoreAreThere(c: Config, doc: Text, pos: nat, depth: nat, done: seq<Slot>, rest: seq<Element>, blank: Filler)
    requires pos <= |doc| && done != []
    requires ElementsFound(c, doc, pos, depth, done, ParseElements(c, doc, pos, depth, done), rest, blank)
    ensures rest != [] && blank == []
  {
    hide ParseElements, FillerText, ElementsText, HasAt, ReadElements, Grammatical;
  }

  /** An element that is read, from in front of the spaces before it. */
  lemma ElementRead(c: Config, doc: Text, pos: nat, depth: nat, done: seq<Slot>) returns (r: Parsed)
    requires pos <= |doc| && ParseElements(c, doc, pos, depth, done).outcome == Success
    requires var start := SkipSpaces(doc, pos);
      !(start < |doc| && doc[start] == 93 && ArrayMayClose(c.features, done))
    ensures r == ParseValue(c, doc, pos, depth + 1, NullValue) && r.outcome == Success && r.errors == []
    ensures ParseElements(c, doc, pos, depth, done) == AfterElement(c, doc, depth, done + [Item(r.val)], r)
  {
    hide ParseElements, ParseValue, AfterElement, SkipSpaces;
    ElementsUnfold(c, doc, pos, depth, done);
    r := ParseValue(c, doc, SkipSpaces(doc, pos), depth + 1, NullValue);
    AfterUnreadElement(c, doc, depth, done + [Item(r.val)], r);
    SpacesEqual(c, doc, pos, depth + 1, NullValue);
  }

  /** A filler between two positions. */
  ghost predicate BehindFound(doc: Text, pos: nat, behind: Filler, at: nat) {
    && FillerWellFormed(behind) && HasAt(doc, pos, FillerText(behind)) && at == pos + |FillerText(behind)| < |doc|
    && (!White(doc[pos]) && doc[pos] != 47 ==> behind == [])
  }

  lemma BehindIsFound(f: Features, doc: Text, pos: nat) returns (behind: Filler)
    requires pos <= |doc| && NonComment(f, doc, pos).start < |doc|
    ensures BehindFound(doc, pos, behind, NonComment(f, doc, pos).start)
    ensures HasComment(behind) <==> ReadToken(f, doc, pos).kind == CommentToken
  {
    hide NonComment, FillerText, HasAt, FillerWellFormed, HasComment;
    behind := FillerFound(f, doc, pos);
  }

  lemma NextElement(c: Config, doc: Text, depth: nat, slots: seq<Slot>, r: Parsed) returns (behind: Filler, at: nat)
    requires r.pos <= |doc| && r.outcome == Success && r.errors == []
    requires AfterElement(c, doc, depth, slots, r).outcome == Success
    ensures BehindFound(doc, r.pos, behind, at) && r.pos <= at < |doc| && doc[at] in {44, 93}
    ensures AfterElement(c, doc, depth, slots, r)
         == if doc[at] == 93 then Parsed(Success, at + 1, ArrayValue(slots), [])
            else ParseElements(c, doc, at + 1, depth, slots)
  {
    hide ParseElements, AfterElement, NonComment, TokenAt, BehindFound;
    AfterRead(c, doc, depth, slots, r);
    NonCommentStarts(c.features, doc, r.pos);
    at := NonComment(c.features, doc, r.pos).start;
    BracketIs(c.features, doc, at);
    behind := BehindIsFound(c.features, doc, r.pos);
  }

  /** The closing bracket, in an array without elements or behind a comma. */
  lemma ArrayCloses(c: Config, doc: Text, pos: nat, depth: nat, done: seq<Slot>, spaces: Filler)
      returns (elements: seq<Element>, blank: Filler)
    requires Blank(spaces) && HasAt(doc, pos, FillerText(spaces)) && HasAt(doc, pos + |FillerText(spaces)|, [93])
    requires ArrayMayClose(c.features, done)
    ensures var p := Parsed(Success, pos + |FillerText(spaces)| + 1, ArrayValue(done), []);
      ElementsFound(c, doc, pos, depth, done, p, elements, blank)
  {
    hide FillerText, HasComment, FillerWellFormed;
    HasAtBound(doc, pos + |FillerText(spaces)|, [93]);
    Joins(doc, pos, FillerText(spaces), [93]);
    if done == [] {
      elements, blank := [], spaces;
    } else {
      elements, blank := [Element(spaces, Dropped, [])], [];
      NoFiller();
      OneOmitted(spaces);
    }
  }

  lemma OneOmitted(spaces: Filler)
    ensures ElementsText([Element(spaces, Dropped, [])]) == FillerText(spaces) + [93] && FillerWellFormed([])
  {
    NoFiller();
    NoText();
    hide FillerText;
    assert [] + ([] + [93]) == [93];
  }

  lemma SpacesEqual(c: Config, doc: Text, pos: nat, depth: nat, prior: Value)
    requires pos <= |doc|
    ensures ParseValue(c, doc, SkipSpaces(doc, pos), depth, prior).outcome == Success ==>
      ParseValue(c, doc, SkipSpaces(doc, pos), depth, prior) == ParseValue(c, doc, pos, depth, prior)
  {
    hide ParseValue;
    var r := ParseValue(c, doc, SkipSpaces(doc, pos), depth, prior);
    if r.outcome == Success {
      SpacesSkipped(c, doc, pos, depth, prior, Gives(r.val), r.pos);
    }
  }

  lemma DerivedBounds(c: Config, doc: Text, pos: nat, depth: nat, r: Parsed, before: Filler, t: Syntax)
    requires Derived(c, doc, pos, depth, r, before, t)
    ensures pos <= r.pos <= |doc| && r.pos == pos + |FillerText(before)| + |SyntaxText(t)|
    ensures FillerWellFormed(before) && Grammatical(t)
    ensures HasAt(doc, pos, FillerText(before)) && HasAt(doc, pos + |FillerText(before)|, SyntaxText(t))
    ensures ReadBehind(c, before, t, Levels(c, depth)) == Gives(r.val)
    ensures t.Dropped? ==> r.pos < |doc| && doc[r.pos] in {44, 93, 125}
    ensures t.Dropped? && !HasComment(before) ==> SkipSpaces(doc, pos) == r.pos
  {
    hide FillerText, SyntaxText, FillerWellFormed, Grammatical, ReadBehind, HasComment, HasAt;
  }

  lemma AfterRead(c: Config, doc: Text, depth: nat, slots: seq<Slot>, r: Parsed)
    requires r.pos <= |doc| && r.outcome == Success && r.errors == []
    requires AfterElement(c, doc, depth, slots, r).outcome == Success
    ensures var t := NonComment(c.features, doc, r.pos);
      && t.kind in {ArrayEnd, ArraySeparator}
      && (t.kind == ArrayEnd ==>
            AfterElement(c, doc, depth, slots, r) == Parsed(Success, t.end, ArrayValue(slots), []))
      && (t.kind == ArraySeparator ==>
            AfterElement(c, doc, depth, slots, r) == ParseElements(c, doc, t.end, depth, slots))
  {
    hide ParseElements, NonComment;
  }

  /** One element in front of the others. */
  lemma ElementsJoin(c: Config, doc: Text, pos: nat, depth: nat, done: seq<Slot>, r: Parsed, before: Filler, t: Syntax,
                     behind: Filler, at: nat, rest: seq<Element>)
    requires pos <= |doc| && Derived(c, doc, pos, depth + 1, r, before, t)
    requires BehindFound(doc, r.pos, behind, at) && at < |doc| && doc[at] == (if rest == [] then 93 else 44)
    requires rest != [] ==>
      ElementsFound(c, doc, at + 1, depth, done + [Item(r.val)],
                    ParseElements(c, doc, at + 1, depth, done + [Item(r.val)]), rest, [])
    requires var start := SkipSpaces(doc, pos);
      !(start < |doc| && doc[start] == 93 && ArrayMayClose(c.features, done))
    ensures var p := if rest == [] then Parsed(Success, at + 1, ArrayValue(done + [Item(r.val)]), [])
               else ParseElements(c, doc, at + 1, depth, done + [Item(r.val)]);
      ElementsFound(c, doc, pos, depth, done, p, [Element(before, t, behind)] + rest, [])
  {
    hide ParseElements, HasAt, FillerText, FillerWellFormed, HasComment, SkipSpaces, Derived;
    hide Grammatical, SyntaxText, ReadBehind, ReadElements, ElementsText;
    var e := Element(before, t, behind);
    var elements := [e] + rest;
    DerivedBounds(c, doc, pos, depth + 1, r, before, t);
    assert elements[1..] == rest;
    BehindDropped(doc, r.pos, behind, t);
    ElementsTextJoin(doc, pos, e, rest);
    FirstOmitted(c, doc, pos, done, e, rest);
    ReadElementsStep(c, elements, Levels(c, depth + 1), done);
    NothingRead(c, Levels(c, depth + 1), done + [Item(r.val)]);
  }

  lemma BehindDropped(doc: Text, pos: nat, behind: Filler, t: Syntax)
    requires t.Dropped? ==> pos < |doc| && doc[pos] in {44, 93, 125}
    requires pos < |doc| && !White(doc[pos]) && doc[pos] != 47 ==> behind == []
    ensures t.Dropped? ==> behind == []
  {
  }

  /** An omitted last element would have closed the array. */
  lemma FirstOmitted(c: Config, doc: Text, pos: nat, done: seq<Slot>, e: Element, rest: seq<Element>)
    requires pos <= |doc|
    requires var at := pos + |FillerText(e.before)| + |SyntaxText(e.value)| + |FillerText(e.behind)|;
      at < |doc| && doc[at] == (if rest == [] then 93 else 44)
    requires Omitted(e) ==> e.behind == []
                            && SkipSpaces(doc, pos) == pos + |FillerText(e.before)| + |SyntaxText(e.value)|
    requires var start := SkipSpaces(doc, pos);
      !(start < |doc| && doc[start] == 93 && ArrayMayClose(c.features, done))
    ensures !EndsArray(c, [e] + rest, done)
    ensures done == [] ==> !(|[e] + rest| == 1 && Omitted(([e] + rest)[0]))
  {
    NoFiller();
    hide SyntaxText, HasComment, SkipSpaces;
  }

  lemma ElementsTextJoin(doc: Text, pos: nat, e: Element, rest: seq<Element>)
    requires HasAt(doc, pos, FillerText(e.before)) && HasAt(doc, pos + |FillerText(e.before)|, SyntaxText(e.value))
    requires var end := pos + |FillerText(e.before)| + |SyntaxText(e.value)|;
      var at := end + |FillerText(e.behind)|;
      && HasAt(doc, end, FillerText(e.behind)) && at < |doc| && doc[at] == (if rest == [] then 93 else 44)
      && (rest != [] ==> HasAt(doc, at + 1, ElementsText(rest)))
    ensures HasAt(doc, pos, ElementsText([e] + rest))
    ensures |ElementsText([e] + rest)| == |FillerText(e.before)| + |SyntaxText(e.value)| + |FillerText(e.behind)| + 1
      + (if rest == [] then 0 else |ElementsText(rest)|)
  {
    hide HasAt, FillerText, SyntaxText, ElementsText;
    var end := pos + |FillerText(e.before)| + |SyntaxText(e.value)|;
    var at := end + |FillerText(e.behind)|;
    assert ([e] + rest)[1..] == rest && ([e] + rest)[0] == e;
    ElementsSplit([e] + rest);
    TailLength(rest);
    BracketAt(doc, at);
    TailJoins(doc, at, rest);
    Joins(doc, end, FillerText(e.behind), ElementsTail(rest));
    Joins(doc, pos + |FillerText(e.before)|, SyntaxText(e.value), FillerText(e.behind) + ElementsTail(rest));
    Joins(doc, pos, FillerText(e.before), SyntaxText(e.value) + (FillerText(e.behind) + ElementsTail(rest)));
  }

  lemma TailJoins(doc: Text, at: nat, rest: seq<Element>)
    requires at < |doc| && HasAt(doc, at, [doc[at]]) && doc[at] == (if rest == [] then 93 else 44)
    requires rest != [] ==> HasAt(doc, at + 1, ElementsText(rest))
    ensures HasAt(doc, at, ElementsTail(rest))
  {
    hide HasAt, ElementsText;
    if rest != [] {
      Joins(doc, at, [44], ElementsText(rest));
    }
  }

  // ----- members -----

  /** Members for what was read from `pos`, behind the members `ms`. */
  ghost predicate MembersFound(c: Config, doc: Text, pos: nat, depth: nat, unnamed: bool, ms: seq<Member>, p: Parsed,
                               members: seq<Entry>, trailing: bool, blank: Filler) {
    && MembersWellFormed(members) && FillerWellFormed(blank)
    && (members == [] ==> trailing) && (!trailing ==> blank == [])
    && HasAt(doc, pos, MembersText(members, trailing, blank))
    && p.pos == pos + |MembersText(members, trailing, blank)| <= |doc|
    && ReadMembers(c, members, trailing, Levels(c, depth + 1), unnamed, ms) == Gives(p.val)
  }

  /** The same from behind the name of the first of them on. */
  ghost predicate MemberFound(c: Config, doc: Text, pos: nat, depth: nat, name: Text, ms: seq<Member>, p: Parsed,
                              m: Entry, rest: seq<Entry>, trailing: bool, blank: Filler) {
    && Blank(m.afterName) && FillerWellFormed(m.beforeValue) && Grammatical(m.value)
    && FillerWellFormed(m.behind) && (m.value.Dropped? ==> m.behind == []) && Separates(m.comma, m.behind)
    && MembersWellFormed(rest) && FillerWellFormed(blank) && (!trailing ==> blank == [])
    && HasAt(doc, pos, FillerText(m.afterName) + FromColon(m, MembersTail(m.comma, rest, trailing, blank)))
    && p.pos == pos + |FillerText(m.afterName)| + |FromColon(m, MembersTail(m.comma, rest, trailing, blank))| <= |doc|
    && var reading := ReadBehind(c, m.beforeValue, m.value, Levels(c, depth + 1));
       reading.Gives?
       && ReadMembers(c, rest, trailing, Levels(c, depth + 1), name == [], Put(ms, name, reading.v)) == Gives(p.val)
  }

  /** A name that lets the object go on. */
  lemma NameFound(c: Config, doc: Text, pos: nat, depth: nat, unnamed: bool, ms: seq<Member>)
      returns (name: Name, text: Text)
    requires pos <= |doc| && ParseMembers(c, doc, pos, depth, unnamed, ms).outcome == Success
    requires NonComment(c.features, doc, pos).kind != ObjectEnd
    ensures var t := NonComment(c.features, doc, pos);
      && t.start < |doc| && NameWellFormed(name) && HasAt(doc, t.start, NameText(name))
      && t.end == t.start + |NameText(name)| <= |doc| && t.end > t.start
      && ReadName(c, name) == JsonString.Plain(text)
      && |text| < KEY_LIMIT && !(c.features.rejectDupKeys && HasKey(ms, text))
      && ParseMembers(c, doc, pos, depth, unnamed, ms) == ParseMember(c, doc, t.end, depth, text, ms)
  {
    hide ParseMembers, ParseMember, NonComment, TokenAt, HasAt, Recover, HasKey;
    hide QuotationText, QuotationWellFormed, QuotationMeaning, NumeralText, NumeralWellFormed, NumberText, Reprinted;
    hide NumberMeaning, JsonParser.DecodeNumber, JsonString.Decode;
    var t := NonComment(c.features, doc, pos);
    NonCommentStarts(c.features, doc, pos);
    MembersUnfold(c, doc, pos, depth, unnamed, ms);
    if t.kind == StringToken {
      var q := QuotationFound(c.features, doc, t.start);
      name, text := Quoted(q), QuotationMeaning(q).text;
      StringIs(c.features, doc, t.start);
    } else {
      var n := NumeralFound(c.features, doc, t.start);
      HasAtIs(doc, t.start, NumeralText(n));
      NumberMeans(c, doc, t, n);
      NumberIsNoText(c, n);
      NumberIs(c.features, doc, t.start);
      name, text := Numeric(n), NumberText(c, NumberMeaning(c, n).v);
    }
  }

  lemma {:induction false} MembersDerive(c: Config, doc: Text, pos: nat, depth: nat, unnamed: bool, ms: seq<Member>)
      returns (members: seq<Entry>, trailing: bool, blank: Filler)
    requires pos <= |doc| && depth <= c.features.stackLimit
    requires ParseMembers(c, doc, pos, depth, unnamed, ms).outcome == Success
    ensures var p := ParseMembers(c, doc, pos, depth, unnamed, ms);
      MembersFound(c, doc, pos, depth, unnamed, ms, p, members, trailing, blank)
    decreases |doc| - pos, 3
  {
    hide ParseMembers, ParseMember, HasAt, FillerText, FillerWellFormed, HasComment, NameText, NameWellFormed;
    hide NonComment, MembersFound, MemberFound, ReadName, HasKey, TokenAt;
    var t := NonComment(c.features, doc, pos);
    NonCommentStarts(c.features, doc, pos);
    if t.kind == ObjectEnd {
      BracketIs(c.features, doc, t.start);
      BracketAt(doc, t.start);
      blank := FillerFound(c.features, doc, pos);
      members, trailing := [], true;
      ObjectCloses(c, doc, pos, depth, unnamed, ms, blank);
    } else {
      var name, text := NameFound(c, doc, pos, depth, unnamed, ms);
      var before := FillerFound(c.features, doc, pos);
      var m: Entry, rest: seq<Entry>;
      m, rest, trailing, blank := MemberDerives(c, doc, t.end, depth, text, ms);
      OtherName(c, doc, t.end, depth, text, ms, ParseMember(c, doc, t.end, depth, text, ms), m, before, name, rest,
                trailing, blank);
      m := m.(before := before, name := name);
      members := [m] + rest;
      MembersJoin(c, doc, pos, depth, unnamed, ms, ParseMember(c, doc, t.end, depth, text, ms), text, m, rest,
                  trailing, blank);
    }
  }

  /** The closing brace. */
  lemma ObjectCloses(c: Config, doc: Text, pos: nat, depth: nat, unnamed: bool, ms: seq<Member>, blank: Filler)
    requires pos <= |doc| && ParseMembers(c, doc, pos, depth, unnamed, ms).outcome == Success
    requires var t := NonComment(c.features, doc, pos);
      t.kind == ObjectEnd && t.start == pos + |FillerText(blank)| < |doc| && t.end == t.start + 1
      && HasAt(doc, t.start, [125])
    requires FillerWellFormed(blank) && HasAt(doc, pos, FillerText(blank))
    ensures var p := ParseMembers(c, doc, pos, depth, unnamed, ms);
      MembersFound(c, doc, pos, depth, unnamed, ms, p, [], true, blank)
  {
    hide ParseMembers, HasAt, FillerText, FillerWellFormed, NonComment, Recover;
    MembersUnfold(c, doc, pos, depth, unnamed, ms);
    NoMembersText(true, blank);
    Joins(doc, pos, FillerText(blank), [125]);
  }

  lemma OtherName(c: Config, doc: Text, pos: nat, depth: nat, text: Text, ms: seq<Member>, p: Parsed, m: Entry,
                  before: Filler, name: Name, rest: seq<Entry>, trailing: bool, blank: Filler)
    requires MemberFound(c, doc, pos, depth, text, ms, p, m, rest, trailing, blank)
    ensures MemberFound(c, doc, pos, depth, text, ms, p, m.(before := before, name := name), rest, trailing, blank)
  {
    hide HasAt, FillerText, FillerWellFormed, SyntaxText, MembersTail, Grammatical, ReadBehind, ReadMembers;
    assert FromColon(m.(before := before, name := name), MembersTail(m.comma, rest, trailing, blank))
        == FromColon(m, MembersTail(m.comma, rest, trailing, blank));
  }

  lemma MembersJoin(c: Config, doc: Text, pos: nat, depth: nat, unnamed: bool, ms: seq<Member>, p: Parsed, text: Text,
                    m: Entry, rest: seq<Entry>, trailing: bool, blank: Filler)
    requires FillerWellFormed(m.before) && HasAt(doc, pos, FillerText(m.before)) && NameWellFormed(m.name)
    requires HasAt(doc, pos + |FillerText(m.before)|, NameText(m.name)) && ReadName(c, m.name) == JsonString.Plain(text)
    requires |text| < KEY_LIMIT && !(c.features.rejectDupKeys && HasKey(ms, text))
    requires MemberFound(c, doc, pos + |FillerText(m.before)| + |NameText(m.name)|, depth, text, ms, p, m, rest,
                         trailing, blank)
    ensures MembersFound(c, doc, pos, depth, unnamed, ms, p, [m] + rest, trailing, blank)
  {
    hide HasAt, FillerText, FillerWellFormed, HasComment, NameText, NameWellFormed, SyntaxText, MembersText, HasKey;
    hide ReadName, ReadMembers, ReadBehind, FromColon, MembersTail, Grammatical, Blank, Separates, Put;
    var members := [m] + rest;
    var quote := pos + |FillerText(m.before)|;
    var tail := MembersTail(m.comma, rest, trailing, blank);
    assert members[1..] == rest && members[0] == m;
    MembersSplit(members, trailing, blank);
    ReadMembersStep(c, members, trailing, Levels(c, depth + 1), unnamed, ms);
    ReadNamedStep(c, members, trailing, Levels(c, depth + 1), text, ms);
    Joins(doc, quote, NameText(m.name), FillerText(m.afterName) + FromColon(m, tail));
    Joins(doc, pos, FillerText(m.before), NameText(m.name) + (FillerText(m.afterName) + FromColon(m, tail)));
  }

  lemma TokenMoves(f: Features, doc: Text, start: nat)
    requires start <= |doc|
    ensures start < |doc| ==> TokenAt(f, doc, start).end > start
    ensures start == |doc| ==> TokenAt(f, doc, start) == Token(EndOfStream, start, start)
  {
  }

  lemma NoMembersAtEnd(c: Config, doc: Text, depth: nat, unnamed: bool, ms: seq<Member>)
    ensures ParseMembers(c, doc, |doc|, depth, unnamed, ms).outcome != Success
  {
    hide ParseMembers, Recover;
    TokenMoves(c.features, doc, |doc|);
    assert SkipSpaces(doc, |doc|) == |doc|;
    MembersUnfold(c, doc, |doc|, depth, unnamed, ms);
  }

  /** What a member read without error must be followed by. */
  lemma AfterMemberRead(c: Config, doc: Text, depth: nat, name: Text, ms: seq<Member>, r: Parsed)
    requires r.pos <= |doc| && r.outcome == Success && r.errors == []
    requires AfterMember(c, doc, depth, name, ms, r).outcome == Success
    ensures var comma, last := ReadToken(c.features, doc, r.pos), NonComment(c.features, doc, r.pos);
      && comma.kind in {ObjectEnd, ArraySeparator, CommentToken} && last.start < |doc| && last.end > last.start
      && last == TokenAt(c.features, doc, last.start)
      && (comma.kind != CommentToken ==> last == comma)
      && (last.kind == ObjectEnd ==>
            AfterMember(c, doc, depth, name, ms, r) == Parsed(Success, last.end, ObjectValue(ms), []))
      && (last.kind != ObjectEnd ==>
            AfterMember(c, doc, depth, name, ms, r) == ParseMembers(c, doc, last.end, depth, name == [], ms))
  {
    hide ParseMembers, TokenAt, Recover;
    var comma, last := ReadToken(c.features, doc, r.pos), NonComment(c.features, doc, r.pos);
    NonCommentStarts(c.features, doc, r.pos);
    if comma.kind == CommentToken {
      BehindComment(c.features, doc, r.pos);
    }
    TokenMoves(c.features, doc, last.start);
    NoMembersAtEnd(c, doc, depth, name == [], ms);
  }

  lemma {:induction false} MemberDerives(c: Config, doc: Text, pos: nat, depth: nat, name: Text, ms: seq<Member>)
      returns (m: Entry, rest: seq<Entry>, trailing: bool, blank: Filler)
    requires pos <= |doc| && depth <= c.features.stackLimit
    requires ParseMember(c, doc, pos, depth, name, ms).outcome == Success
    ensures var p := ParseMember(c, doc, pos, depth, name, ms);
      MemberFound(c, doc, pos, depth, name, ms, p, m, rest, trailing, blank)
    decreases |doc| - pos, 4
  {
    hide ParseMembers, ParseMember, ParseValue, AfterMember, Put, ValueOf;
    hide MembersFound, MemberFound, Derived, BehindFound, Separates;
    var afterName, colon, r := MemberRead(c, doc, pos, depth, name, ms);
    var ms' := Put(ms, name, r.val);
    var beforeValue, value := ValueDerives(c, doc, colon + 1, depth + 1, ValueOf(ms, name));
    var behind, at, comma := NextMember(c, doc, depth, name, ms', r);
    rest, trailing, blank := [], false, [];
    if doc[at] != 125 {
      rest, trailing, blank := MembersDerive(c, doc, at + |comma|, depth, name == [], ms');
      OthersAreThere(c, doc, at + |comma|, depth, name == [], ms', rest, trailing, blank);
    }
    m := Entry([], Quoted(Quotation(false, [], [])), afterName, beforeValue, value, behind, comma);
    MemberJoin(c, doc, pos, colon, depth, name, ms, r, m, at, rest, trailing, blank);
  }

  lemma OthersAreThere(c: Config, doc: Text, pos: nat, depth: nat, unnamed: bool, ms: seq<Member>,
                       rest: seq<Entry>, trailing: bool, blank: Filler)
    requires pos <= |doc|
    requires var p := ParseMembers(c, doc, pos, depth, unnamed, ms);
      MembersFound(c, doc, pos, depth, unnamed, ms, p, rest, trailing, blank)
    ensures rest != [] || trailing
  {
    hide ParseMembers, MembersText, HasAt, ReadMembers, MembersWellFormed, FillerWellFormed;
  }

  /** A member that is read: the colon and the value. */
  lemma MemberRead(c: Config, doc: Text, pos: nat, depth: nat, name: Text, ms: seq<Member>)
      returns (afterName: Filler, colon: nat, r: Parsed)
    requires pos <= |doc| && ParseMember(c, doc, pos, depth, name, ms).outcome == Success
    ensures Blank(afterName) && HasAt(doc, pos, FillerText(afterName)) && colon == pos + |FillerText(afterName)|
    ensures pos <= colon < |doc| && doc[colon] == 58
    ensures r == ParseValue(c, doc, colon + 1, depth + 1, ValueOf(ms, name)) && r.outcome == Success && r.errors == []
    ensures ParseMember(c, doc, pos, depth, name, ms) == AfterMember(c, doc, depth, name, Put(ms, name, r.val), r)
  {
    hide ParseMember, ParseValue, AfterMember, Put, ValueOf, TokenAt, Recover, FillerText, Blank, HasAt;
    MemberUnfold(c, doc, pos, depth, name, ms);
    TokenStarts(c.features, doc, pos);
    colon := ReadToken(c.features, doc, pos).start;
    BracketIs(c.features, doc, colon);
    afterName := SpacesFound(doc, pos);
    r := ParseValue(c, doc, colon + 1, depth + 1, ValueOf(ms, name));
    AfterUnread(c, doc, depth, name, Put(ms, name, r.val), r);
  }

  /** What separates a member from the next, or the brace that closes the object. */
  lemma NextMember(c: Config, doc: Text, depth: nat, name: Text, ms: seq<Member>, r: Parsed)
      returns (behind: Filler, at: nat, comma: Text)
    requires r.pos <= |doc| && r.outcome == Success && r.errors == []
    requires AfterMember(c, doc, depth, name, ms, r).outcome == Success
    ensures BehindFound(doc, r.pos, behind, at) && r.pos <= at < |doc| && Separates(comma, behind)
    ensures doc[at] != 125 ==> HasAt(doc, at, comma) && comma != [] && at + |comma| <= |doc|
    ensures AfterMember(c, doc, depth, name, ms, r)
         == if doc[at] == 125 then Parsed(Success, at + 1, ObjectValue(ms), [])
            else ParseMembers(c, doc, at + |comma|, depth, name == [], ms)
  {
    hide ParseMembers, AfterMember, NonComment, TokenAt, BehindFound, HasAt, Separates, HasComment, ReadToken;
    AfterMemberRead(c, doc, depth, name, ms, r);
    var last := NonComment(c.features, doc, r.pos);
    at := last.start;
    behind := BehindIsFound(c.features, doc, r.pos);
    BraceIs(c.features, doc, at);
    comma := if last.kind == ObjectEnd then [44] else doc[at..last.end];
    StandsThere(doc, at, last.end);
    CommaSeparates(c, doc, r.pos, behind, comma);
  }

  lemma BraceIs(f: Features, doc: Text, start: nat)
    requires start < |doc|
    ensures TokenAt(f, doc, start).kind == ObjectEnd <==> doc[start] == 125
    ensures doc[start] == 125 ==> TokenAt(f, doc, start).end == start + 1
  {
  }

  lemma CommaSeparates(c: Config, doc: Text, pos: nat, behind: Filler, comma: Text)
    requires pos <= |doc|
    requires var first, last := ReadToken(c.features, doc, pos), NonComment(c.features, doc, pos);
      && first.kind in {ObjectEnd, ArraySeparator, CommentToken} && last.start < last.end <= |doc|
      && last == TokenAt(c.features, doc, last.start)
      && (first.kind != CommentToken ==> last == first)
      && (HasComment(behind) <==> first.kind == CommentToken)
      && (comma == if last.kind == ObjectEnd then [44] else doc[last.start..last.end])
    ensures Separates(comma, behind)
  {
    hide NonComment, ReadToken, TokenAt, HasComment;
    var last := NonComment(c.features, doc, pos);
    if last.kind == ArraySeparator {
      BracketIs(c.features, doc, last.start);
    }
  }

  /** The parts of a member, and the members behind it. */
  lemma MemberJoin(c: Config, doc: Text, pos: nat, colon: nat, depth: nat, name: Text, ms: seq<Member>, r: Parsed,
                   m: Entry, at: nat, rest: seq<Entry>, trailing: bool, blank: Filler)
    requires pos <= colon < |doc| && doc[colon] == 58
    requires Blank(m.afterName) && HasAt(doc, pos, FillerText(m.afterName)) && colon == pos + |FillerText(m.afterName)|
    requires Derived(c, doc, colon + 1, depth + 1, r, m.beforeValue, m.value)
    requires BehindFound(doc, r.pos, m.behind, at) && Separates(m.comma, m.behind)
    requires var ms' := Put(ms, name, r.val);
      if rest == [] && !trailing then blank == [] && at < |doc| && doc[at] == 125
      else
        && HasAt(doc, at, m.comma) && at + |m.comma| <= |doc|
        && MembersFound(c, doc, at + |m.comma|, depth, name == [], ms',
                        ParseMembers(c, doc, at + |m.comma|, depth, name == [], ms'), rest, trailing, blank)
    ensures var ms' := Put(ms, name, r.val);
      var p := if rest == [] && !trailing then Parsed(Success, at + 1, ObjectValue(ms'), [])
               else ParseMembers(c, doc, at + |m.comma|, depth, name == [], ms');
      MemberFound(c, doc, pos, depth, name, ms, p, m, rest, trailing, blank)
  {
    hide ParseMembers, HasAt, FillerText, FillerWellFormed, HasComment, SyntaxText, MembersText, ReadMembers;
    hide ReadBehind, Grammatical, Blank, Separates, Put, MembersWellFormed, Derived;
    DerivedBounds(c, doc, colon + 1, depth + 1, r, m.beforeValue, m.value);
    BehindDropped(doc, r.pos, m.behind, m.value);
    var tail := MembersTail(m.comma, rest, trailing, blank);
    if rest == [] && !trailing {
      BracketAt(doc, at);
      ObjectEnded(c, Levels(c, depth + 1), name == [], Put(ms, name, r.val));
      NoMembersWellFormed();
    } else {
      Joins(doc, at, m.comma, MembersText(rest, trailing, blank));
    }
    FromColonAt(doc, pos, colon, r.pos, m, tail);
  }

  lemma FromColonAt(doc: Text, pos: nat, colon: nat, end: nat, m: Entry, tail: Text)
    requires HasAt(doc, pos, FillerText(m.afterName)) && colon == pos + |FillerText(m.afterName)| < |doc|
    requires doc[colon] == 58 && end == colon + 1 + |FillerText(m.beforeValue)| + |SyntaxText(m.value)|
    requires HasAt(doc, colon + 1, FillerText(m.beforeValue))
    requires HasAt(doc, colon + 1 + |FillerText(m.beforeValue)|, SyntaxText(m.value))
    requires HasAt(doc, end, FillerText(m.behind)) && HasAt(doc, end + |FillerText(m.behind)|, tail)
    ensures HasAt(doc, pos, FillerText(m.afterName) + FromColon(m, tail))
    ensures |FromColon(m, tail)| == end - colon + |FillerText(m.behind)| + |tail|
  {
    hide HasAt, FillerText, SyntaxText;
    var fromValue := SyntaxText(m.value) + (FillerText(m.behind) + tail);
    Joins(doc, end, FillerText(m.behind), tail);
    Joins(doc, end - |SyntaxText(m.value)|, SyntaxText(m.value), FillerText(m.behind) + tail);
    Joins(doc, colon + 1, FillerText(m.beforeValue), fromValue);
    BracketAt(doc, colon);
    Joins(doc, colon, [58], FillerText(m.beforeValue) + fromValue);
    Joins(doc, pos, FillerText(m.afterName), FromColon(m, tail));
  }

  lemma NoMembersWellFormed()
    ensures MembersWellFormed([]) && FillerWellFormed([])
  {
  }

  // ----- whole documents -----

  lemma TailStands(doc: Text, pos: nat, start: nat)
    requires pos <= start <= |doc|
    ensures HasAt(doc, start, doc[start..]) && start + |doc[start..]| == |doc|
  {
  }

  /** What stands in front of the end of the stream. */
  lemma {:induction false} TailFound(c: Config, doc: Text, pos: nat) returns (behind: Filler, tail: Text)
    requires pos <= |doc| && SkipCommentTokens(c.features, doc, pos).kind == EndOfStream
    ensures FillerWellFormed(behind) && NothingExtra(c, behind, tail)
    ensures HasAt(doc, pos, FillerText(behind)) && HasAt(doc, pos + |FillerText(behind)|, tail)
    ensures pos + |FillerText(behind)| + |tail| == |doc|
    decreases |doc| - pos
  {
    hide TokenAt, PieceWellFormed, PieceText, HasAt, HasComment, FillerWellFormed, NonComment, SkipSpaces, FillerText;
    hide CutShort;
    var f := c.features;
    var spaces := SpacesFound(doc, pos);
    var start := SkipSpaces(doc, pos);
    TokenStarts(f, doc, pos);
    NonCommentStep(f, doc, pos);
    if TokenAt(f, doc, start).kind == CommentToken {
      var ps, rest := CommentOrTail(f, doc, start);
      if ps == [] {
        behind, tail := spaces, rest;
      } else {
        var middle := TokenAt(f, doc, start).end;
        TokenMoves(f, doc, start);
        AllSkipped(f, doc, middle);
        var more: Filler;
        more, tail := TailFound(c, doc, middle);
        BreakEnds(doc, middle, more);
        OneMore(ps[0], more);
        Joins(doc, start, PieceText(ps[0]), FillerText(more));
        SpacesThen(spaces, [ps[0]] + more);
        Joins(doc, pos, FillerText(spaces), FillerText([ps[0]] + more));
        behind := spaces + ([ps[0]] + more);
      }
    } else {
      behind, tail := spaces, doc[start..];
      TailStands(doc, start, start);
      EndIs(f, doc, start);
      NotCutShort(tail);
    }
  }

  lemma EndIs(f: Features, doc: Text, start: nat)
    requires start <= |doc| && TokenAt(f, doc, start).kind == EndOfStream
    ensures start == |doc| || doc[start] == 0
  {
  }

  lemma NotCutShort(tail: Text)
    requires tail == [] || tail[0] == 0
    ensures !CutShort(tail)
  {
  }

  /** The document is a text of the tree, which denotes `v`; nothing extra stands behind it if
      nothing may, and the root is what strictRoot asks for. */
  ghost predicate IsText(c: Config, doc: Text, v: Value, mark: Text, before: Filler, t: Syntax, behind: Filler,
                         tail: Text) {
    && (mark == [] || (mark == MARK && c.features.skipBom))
    && FillerWellFormed(before) && Grammatical(t) && FillerWellFormed(behind)
    && doc == DocumentText(mark, before, t, behind, tail)
    && (t.Dropped? ==> behind == [] && tail != [] && tail[0] in {44, 93, 125})
    && ReadBehind(c, before, t, c.features.stackLimit) == Gives(v)
    && (c.features.failIfExtra ==> NothingExtra(c, behind, tail))
    && (c.features.strictRoot ==> v.ArrayValue? || v.ObjectValue?)
  }

  ghost predicate Accepted(c: Config, doc: Text, v: Value) {
    exists mark, before, t, behind, tail :: IsText(c, doc, v, mark, before, t, behind, tail)
  }

  lemma PartsJoin(doc: Text, mark: Text, a: Text, b: Text, d: Text, e: Text)
    requires HasAt(doc, 0, mark) && HasAt(doc, |mark|, a) && HasAt(doc, |mark| + |a|, b)
    requires HasAt(doc, |mark| + |a| + |b|, d) && HasAt(doc, |mark| + |a| + |b| + |d|, e)
    requires |mark| + |a| + |b| + |d| + |e| == |doc|
    ensures doc == mark + (a + (b + (d + e)))
  {
    hide HasAt;
    Joins(doc, |mark| + |a| + |b|, d, e);
    Joins(doc, |mark| + |a|, b, d + e);
    Joins(doc, |mark|, a, b + (d + e));
    Joins(doc, 0, mark, a + (b + (d + e)));
    HasAtIs(doc, 0, mark + (a + (b + (d + e))));
  }

  /** The converse of the grammar theorem: whenever parsing succeeds, the document is a text of
      a tree that denotes the value. */
  lemma DocumentDerives(c: Config, doc: Text, prior: Value)
      returns (mark: Text, before: Filler, t: Syntax, behind: Filler, tail: Text)
    requires ParseDocument(c, doc, prior).outcome == Success
    ensures IsText(c, doc, ParseDocument(c, doc, prior).val, mark, before, t, behind, tail)
  {
    hide ParseValue, SkipCommentTokens, Derived, IsText, BehindRoot;
    var start := DocumentStart(c.features, doc);
    mark := MarkIs(c.features, doc);
    var r := ParseValue(c, doc, start, 1, prior);
    before, t := ValueDerives(c, doc, start, 1, prior);
    DerivedEnds(c, doc, start, 1, r, before, t);
    behind, tail := RootFollowed(c, doc, r.pos, t);
    TextIs(c, doc, r, mark, before, t, behind, tail);
  }

  lemma DerivedEnds(c: Config, doc: Text, pos: nat, depth: nat, r: Parsed, before: Filler, t: Syntax)
    requires Derived(c, doc, pos, depth, r, before, t)
    ensures r.pos <= |doc| && (t.Dropped? ==> r.pos < |doc| && doc[r.pos] in {44, 93, 125})
  {
    hide FillerText, SyntaxText, FillerWellFormed, Grammatical, ReadBehind, HasComment, HasAt;
  }

  /** What stands behind the root that is read. */
  ghost predicate BehindRoot(c: Config, doc: Text, pos: nat, t: Syntax, behind: Filler, tail: Text) {
    && FillerWellFormed(behind) && HasAt(doc, pos, FillerText(behind)) && HasAt(doc, pos + |FillerText(behind)|, tail)
    && pos + |FillerText(behind)| + |tail| == |doc| && (c.features.failIfExtra ==> NothingExtra(c, behind, tail))
    && (t.Dropped? ==> behind == [] && tail != [] && tail[0] in {44, 93, 125})
  }

  lemma RootFollowed(c: Config, doc: Text, pos: nat, t: Syntax) returns (behind: Filler, tail: Text)
    requires pos <= |doc| && (t.Dropped? ==> pos < |doc| && doc[pos] in {44, 93, 125})
    requires c.features.failIfExtra ==> SkipCommentTokens(c.features, doc, pos).kind == EndOfStream
    ensures BehindRoot(c, doc, pos, t, behind, tail)
  {
    hide SkipCommentTokens, HasAt, FillerText, FillerWellFormed, NothingExtra;
    if t.Dropped? {
      NotTheEnd(c.features, doc, pos);
    }
    if c.features.failIfExtra {
      behind, tail := TailFound(c, doc, pos);
    } else {
      behind, tail := [], doc[pos..];
      TailStands(doc, pos, pos);
      NoFiller();
      NoMembersWellFormed();
      NothingAtAll(doc, pos);
    }
  }

  lemma TextIs(c: Config, doc: Text, r: Parsed, mark: Text, before: Filler, t: Syntax, behind: Filler, tail: Text)
    requires (mark == [] || (mark == MARK && c.features.skipBom)) && HasAt(doc, 0, mark) && |mark| <= |doc|
    requires Derived(c, doc, |mark|, 1, r, before, t) && BehindRoot(c, doc, r.pos, t, behind, tail)
    requires c.features.strictRoot ==> r.val.ArrayValue? || r.val.ObjectValue?
    ensures IsText(c, doc, r.val, mark, before, t, behind, tail)
  {
    hide HasAt, FillerText, FillerWellFormed, Grammatical, SyntaxText, ReadBehind, NothingExtra, Derived;
    DerivedBounds(c, doc, |mark|, 1, r, before, t);
    PartsJoin(doc, mark, FillerText(before), SyntaxText(t), FillerText(behind), tail);
  }

  lemma SuccessIsAccepted(c: Config, doc: Text, prior: Value)
    ensures ParseDocument(c, doc, prior).outcome == Success ==> Accepted(c, doc, ParseDocument(c, doc, prior).val)
  {
    hide IsText, ParseDocument;
    if ParseDocument(c, doc, prior).outcome == Success {
      var mark, before, t, behind, tail := DocumentDerives(c, doc, prior);
    }
  }

  lemma NotTheEnd(f: Features, doc: Text, pos: nat)
    requires pos < |doc| && doc[pos] in {44, 93, 125}
    ensures SkipCommentTokens(f, doc, pos).kind != EndOfStream
  {
    hide TokenAt;
    PunctuationToken(f, doc, pos);
    NoSpace(f, doc, pos);
  }

  lemma NothingAtAll(doc: Text, pos: nat)
    requires pos <= |doc|
    ensures HasAt(doc, pos, [])
  {
  }

  lemma MarkIs(f: Features, doc: Text) returns (mark: Text)
    ensures (mark == [] || (mark == MARK && f.skipBom)) && HasAt(doc, 0, mark) && |mark| == DocumentStart(f, doc)
  {
    mark := if DocumentStart(f, doc) == 3 then BOM else [];
  }

  // ----- documents without comments -----

  lemma {:induction false} CommentSlash(ps: Filler)
    ensures HasComment(ps) ==> 47 in FillerText(ps)
  {
    if ps != [] {
      CommentSlash(ps[1..]);
      PieceSlash(ps[0]);
      RestComments(ps[0], ps[1..]);
      assert ps == [ps[0]] + ps[1..];
    }
  }

  lemma PieceSlash(p: Piece)
    ensures !p.Space? ==> 47 in PieceText(p)
  {
    if !p.Space? {
      assert PieceText(p)[0] == 47;
    }
  }

  lemma {:induction false} ElementInside(elements: seq<Element>, k: nat)
    requires k < |elements|
    ensures forall b :: b in SyntaxText(elements[k].value) ==> b in ElementsText(elements)
  {
    hide SyntaxText, FillerText;
    if k > 0 {
      ElementInside(elements[1..], k - 1);
    }
  }

  lemma {:induction false} MemberInside(members: seq<Entry>, trailing: bool, blank: Filler, k: nat)
    requires k < |members|
    ensures forall b :: b in SyntaxText(members[k].value) ==> b in MembersText(members, trailing, blank)
    ensures forall b :: b in FillerText(members[k].behind) ==> b in MembersText(members, trailing, blank)
  {
    hide SyntaxText, FillerText, NameText;
    if k > 0 {
      MemberInside(members[1..], trailing, blank, k - 1);
    }
  }

  /** A tree whose text has no slash has no comments, so only commas separate its members. */
  lemma {:induction false} NoSlashNoComment(t: Syntax)
    requires Grammatical(t) && 47 !in SyntaxText(t)
    ensures Commas(t)
    decreases t
  {
    hide FillerText, ElementsText, MembersText, FillerWellFormed, HasComment, NameWellFormed, Blank, Omitted;
    match t
    case ArraySyntax(elements, _) =>
      forall k | 0 <= k < |elements|
        ensures Commas(elements[k].value)
      {
        ElementInside(elements, k);
        NoSlashNoComment(elements[k].value);
      }
    case ObjectSyntax(members, trailing, blank) =>
      forall k | 0 <= k < |members|
        ensures members[k].comma == [44] && Commas(members[k].value)
      {
        MemberInside(members, trailing, blank, k);
        CommentSlash(members[k].behind);
        NoSlashNoComment(members[k].value);
      }
    case _ =>
  }

  /** Exactly the texts of the grammar: where nothing extra is allowed, a document without a
      slash is parsed to a value without error if and only if it is the text of a tree that
      denotes the value. */
  lemma AcceptedExactly(c: Config, doc: Text, v: Value, prior: Value)
    requires c.features.failIfExtra && 47 !in doc
    ensures ParseDocument(c, doc, prior).outcome == Success && ParseDocument(c, doc, prior).val == v
       <==> Accepted(c, doc, v)
  {
    hide IsText, ParseDocument;
    if ParseDocument(c, doc, prior).outcome == Success && ParseDocument(c, doc, prior).val == v {
      var mark, before, t, behind, tail := DocumentDerives(c, doc, prior);
    }
    if mark, before, t, behind, tail :| IsText(c, doc, v, mark, before, t, behind, tail) {
      TextAccepted(c, doc, v, mark, before, t, behind, tail, prior);
    }
  }

  /** The outcome and the value say whether the document is a text of a value, and of which. */
  ghost predicate Decides(c: Config, doc: Text, outcome: Outcome, read: Value) {
    && (outcome == Success ==> Accepted(c, doc, read))
    && (c.features.failIfExtra && 47 !in doc ==>
          forall v :: Accepted(c, doc, v) ==> outcome == Success && read == v)
  }

  lemma ParseDecides(c: Config, doc: Text, prior: Value, read: Value)
    requires ParseDocument(c, doc, prior).outcome == Success ==> read == ParseDocument(c, doc, prior).val
    ensures Decides(c, doc, ParseDocument(c, doc, prior).outcome, read)
  {
    hide Accepted, ParseDocument;
    SuccessIsAccepted(c, doc, prior);
    if c.features.failIfExtra && 47 !in doc {
      forall v | Accepted(c, doc, v)
        ensures ParseDocument(c, doc, prior).outcome == Success && read == v
      {
        AcceptedExactly(c, doc, v, prior);
      }
    }
  }

  lemma TextAccepted(c: Config, doc: Text, v: Value, mark: Text, before: Filler, t: Syntax, behind: Filler, tail: Text,
                     prior: Value)
    requires c.features.failIfExtra && 47 !in doc && IsText(c, doc, v, mark, before, t, behind, tail)
    ensures ParseDocument(c, doc, prior).outcome == Success && ParseDocument(c, doc, prior).val == v
  {
    hide ParseDocument, FillerText, SyntaxText, Grammatical, FillerWellFormed, Commas, HasComment, CutShort;
    SlashInside(mark, before, t, behind, tail);
    NoSlashNoComment(t);
    GrammarAccepted(c, mark, before, t, behind, tail, prior);
  }

  lemma SlashInside(mark: Text, before: Filler, t: Syntax, behind: Filler, tail: Text)
    ensures 47 !in DocumentText(mark, before, t, behind, tail) ==> 47 !in SyntaxText(t) && 47 !in tail
  {
    hide FillerText, SyntaxText;
  }
}
