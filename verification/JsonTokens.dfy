/** The tokens the reader finds where the grammar's texts stand. */
module JsonTokens {
  import opened Bytes
  import opened JsonErrors
  import opened JsonGrammar
  import opened JsonLexer
  import opened JsonNumber
  import opened JsonParser
  import opened JsonValue
  import JsonString
  import Utf8

  // ----- whitespace and comments -----

  lemma WhiteIsSpace(b: Byte)
    ensures IsSpace(b) <==> White(b)
  {
  }

  lemma StarsRest(body: Text)
    requires body != [] && PieceWellFormed(Block(body))
    ensures PieceWellFormed(Block(body[1..])) && !(body[0] == 42 && (body + [42, 47])[1] == 47)
    ensures body + [42, 47] == [body[0]] + (body[1..] + [42, 47])
  {
    var rest := body[1..];
    assert !(body[0] == 42 && (body + [42])[1] == 47);
    forall k | 0 <= k < |rest|
      ensures !(rest[k] == 42 && (rest + [42])[k + 1] == 47)
    {
      assert !(body[k + 1] == 42 && (body + [42])[k + 2] == 47);
    }
  }

  lemma {:induction false} StarsStop(doc: Text, pos: nat, body: Text)
    requires PieceWellFormed(Block(body)) && HasAt(doc, pos, body + [42, 47])
    ensures CStyleStop(doc, pos) == pos + |body| + 1 < |doc| && doc[pos + |body| + 1] == 47
    decreases |body|
  {
    hide HasAt, PieceWellFormed;
    HasAtBound(doc, pos, body + [42, 47]);
    HasAtIndex(doc, pos, body + [42, 47], 0);
    HasAtIndex(doc, pos, body + [42, 47], 1);
    if body != [] {
      StarsRest(body);
      HasAtSplit(doc, pos, [body[0]], body[1..] + [42, 47]);
      StarsStop(doc, pos + 1, body[1..]);
    }
  }

  lemma {:induction false} LineEnds(doc: Text, pos: nat, body: Text, ending: Text)
    requires PieceWellFormed(Line(body, ending)) && HasAt(doc, pos, body + ending)
    requires ending == [13] ==> CharAt(doc, pos + |body| + 1) != 10
    ensures CppStyleEnd(doc, pos) == pos + |body| + |ending| <= |doc|
    decreases |body|
  {
    hide HasAt;
    HasAtBound(doc, pos, body + ending);
    HasAtIndex(doc, pos, body + ending, 0);
    if body != [] {
      var rest := body[1..];
      assert body + ending == [body[0]] + (rest + ending);
      HasAtSplit(doc, pos, [body[0]], rest + ending);
      LineEnds(doc, pos + 1, rest, ending);
    } else if |ending| > 1 {
      HasAtIndex(doc, pos, body + ending, 1);
    }
  }

  /** A comment where its text stands. */
  lemma CommentRead(f: Features, doc: Text, pos: nat, p: Piece)
    requires !p.Space? && PieceWellFormed(p) && HasAt(doc, pos, PieceText(p))
    requires p.Line? && p.ending == [13] ==> CharAt(doc, pos + |PieceText(p)|) != 10
    ensures pos + |PieceText(p)| <= |doc|
    ensures TokenAt(f, doc, pos) == Token(CommentToken, pos, pos + |PieceText(p)|)
  {
    hide HasAt, CStyleStop, CppStyleEnd, PieceWellFormed;
    HasAtBound(doc, pos, PieceText(p));
    match p
    case Block(body) =>
      HasAtSplit(doc, pos, [47, 42], body + [42, 47]);
      HasAtIndex(doc, pos, [47, 42], 0);
      HasAtIndex(doc, pos, [47, 42], 1);
      StarsStop(doc, pos + 2, body);
    case Line(body, ending) =>
      HasAtSplit(doc, pos, [47, 47], body + ending);
      HasAtIndex(doc, pos, [47, 47], 0);
      HasAtIndex(doc, pos, [47, 47], 1);
      LineEnds(doc, pos + 2, body, ending);
  }

  lemma SkipsSpace(f: Features, doc: Text, pos: nat)
    requires pos < |doc| && White(doc[pos])
    ensures SkipSpaces(doc, pos) == SkipSpaces(doc, pos + 1)
    ensures ReadToken(f, doc, pos) == ReadToken(f, doc, pos + 1)
    ensures NonComment(f, doc, pos) == NonComment(f, doc, pos + 1)
    ensures SkipCommentTokens(f, doc, pos) == SkipCommentTokens(f, doc, pos + 1)
  {
    hide TokenAt;
    assert SkipSpaces(doc, pos) == SkipSpaces(doc, pos + 1);
  }

  lemma NoSpace(f: Features, doc: Text, pos: nat)
    requires pos <= |doc| && (pos < |doc| ==> !White(doc[pos]))
    ensures SkipSpaces(doc, pos) == pos && ReadToken(f, doc, pos) == TokenAt(f, doc, pos)
    ensures TokenAt(f, doc, pos).kind != CommentToken ==>
      NonComment(f, doc, pos) == SkipCommentTokens(f, doc, pos) == TokenAt(f, doc, pos)
  {
    hide TokenAt;
    assert SkipSpaces(doc, pos) == pos;
  }

  /** What reading finds behind whitespace and comments: whitespace is skipped everywhere,
      comments where they are skipped at all. */
  ghost predicate Skipped(f: Features, doc: Text, pos: nat, end: nat, comments: bool) {
    && pos <= end <= |doc| && SkipSpaces(doc, end) == end
    && NonComment(f, doc, pos) == NonComment(f, doc, end)
    && (f.allowComments || !comments ==> SkipCommentTokens(f, doc, pos) == SkipCommentTokens(f, doc, end))
    && (!comments ==> SkipSpaces(doc, pos) == end && ReadToken(f, doc, pos) == TokenAt(f, doc, end))
    && (comments ==> SkipSpaces(doc, pos) < end && doc[SkipSpaces(doc, pos)] == 47
                     && ReadToken(f, doc, pos).kind == CommentToken)
  }

  lemma RestWellFormed(ps: Filler)
    requires ps != [] && FillerWellFormed(ps)
    ensures PieceWellFormed(ps[0]) && FillerWellFormed(ps[1..])
    ensures HasComment(ps) <==> !ps[0].Space? || HasComment(ps[1..])
    ensures ps[0].Line? && ps[0].ending == [13] && |ps| > 1 ==> ps[1] != Space(10)
  {
    hide PieceWellFormed;
    if !ps[0].Space? {
      assert HasComment(ps);
    }
    if HasComment(ps[1..]) {
      var k :| 0 <= k < |ps[1..]| && !ps[1..][k].Space?;
      assert !ps[k + 1].Space?;
    }
    if HasComment(ps) && ps[0].Space? {
      var k :| 0 <= k < |ps| && !ps[k].Space?;
      assert !ps[1..][k - 1].Space?;
    }
    forall k | 0 <= k < |ps[1..]|
      ensures PieceWellFormed(ps[1..][k])
      ensures ps[1..][k].Line? && ps[1..][k].ending == [13] && k + 1 < |ps[1..]| ==> ps[1..][k + 1] != Space(10)
    {
      assert ps[1..][k] == ps[k + 1];
    }
  }

  /** A line break is not continued by what follows. */
  lemma NotContinued(doc: Text, pos: nat, ps: Filler)
    requires FillerWellFormed(ps) && HasAt(doc, pos, FillerText(ps)) && (ps != [] ==> ps[0] != Space(10))
    requires var end := pos + |FillerText(ps)|; end <= |doc| && (end < |doc| ==> !White(doc[end]))
    ensures CharAt(doc, pos) != 10
  {
    if ps != [] {
      HasAtSplit(doc, pos, PieceText(ps[0]), FillerText(ps[1..]));
      HasAtIndex(doc, pos, PieceText(ps[0]), 0);
    }
  }

  lemma SkippedSpace(f: Features, doc: Text, pos: nat, end: nat, comments: bool)
    requires pos < |doc| && White(doc[pos]) && Skipped(f, doc, pos + 1, end, comments)
    ensures Skipped(f, doc, pos, end, comments)
  {
    hide TokenAt, NonComment, SkipCommentTokens, ReadToken;
    SkipsSpace(f, doc, pos);
  }

  lemma SkippedComment(f: Features, doc: Text, pos: nat, middle: nat, end: nat, comments: bool)
    requires pos < |doc| && doc[pos] == 47 && SkipSpaces(doc, pos) == pos
    requires TokenAt(f, doc, pos) == Token(CommentToken, pos, middle) && Skipped(f, doc, middle, end, comments)
    ensures Skipped(f, doc, pos, end, true)
  {
    hide TokenAt, NonComment, SkipCommentTokens, ReadToken;
    CommentSkipped(f, doc, pos);
    if f.allowComments {
      AllSkipped(f, doc, middle);
      AllSkipped(f, doc, end);
    }
  }

  lemma AllSkipped(f: Features, doc: Text, pos: nat)
    requires f.allowComments && pos <= |doc|
    ensures SkipCommentTokens(f, doc, pos) == NonComment(f, doc, pos)
  {
  }

  lemma NothingSkipped(f: Features, doc: Text, pos: nat)
    requires pos <= |doc| && (pos < |doc| ==> !White(doc[pos]))
    ensures Skipped(f, doc, pos, pos, false)
  {
    hide TokenAt;
    NoSpace(f, doc, pos);
  }

  lemma {:induction false} FillerSkipped(f: Features, doc: Text, pos: nat, ps: Filler)
    requires FillerWellFormed(ps) && HasAt(doc, pos, FillerText(ps))
    requires var end := pos + |FillerText(ps)|; end <= |doc| && (end < |doc| ==> !White(doc[end]))
    ensures Skipped(f, doc, pos, pos + |FillerText(ps)|, HasComment(ps))
    decreases |ps|
  {
    hide HasAt, PieceText, PieceWellFormed, TokenAt, White, HasComment, FillerWellFormed, Skipped;
    var end := pos + |FillerText(ps)|;
    if ps == [] {
      NoComment();
      NothingSkipped(f, doc, pos);
    } else {
      var p, rest := ps[0], ps[1..];
      HasAtSplit(doc, pos, PieceText(p), FillerText(rest));
      RestWellFormed(ps);
      FillerSkipped(f, doc, pos + |PieceText(p)|, rest);
      if p.Space? {
        SpaceAt(doc, pos, p);
        SkippedSpace(f, doc, pos, end, HasComment(rest));
      } else {
        if p.Line? && p.ending == [13] {
          NotContinued(doc, pos + |PieceText(p)|, rest);
        }
        CommentAt(doc, pos, p);
        CommentRead(f, doc, pos, p);
        SkippedComment(f, doc, pos, pos + |PieceText(p)|, end, HasComment(rest));
      }
    }
  }

  lemma NoComment()
    ensures !HasComment([])
  {
  }

  lemma SpaceAt(doc: Text, pos: nat, p: Piece)
    requires p.Space? && PieceWellFormed(p) && HasAt(doc, pos, PieceText(p))
    ensures |PieceText(p)| == 1 && pos < |doc| && White(doc[pos])
  {
    HasAtIndex(doc, pos, PieceText(p), 0);
  }

  lemma CommentAt(doc: Text, pos: nat, p: Piece)
    requires !p.Space? && HasAt(doc, pos, PieceText(p))
    ensures pos < |doc| && doc[pos] == 47 && SkipSpaces(doc, pos) == pos
  {
    HasAtIndex(doc, pos, PieceText(p), 0);
  }

  lemma CommentSkipped(f: Features, doc: Text, pos: nat)
    requires pos < |doc| && SkipSpaces(doc, pos) == pos && TokenAt(f, doc, pos).kind == CommentToken
    ensures ReadToken(f, doc, pos) == TokenAt(f, doc, pos)
    ensures NonComment(f, doc, pos) == NonComment(f, doc, TokenAt(f, doc, pos).end)
    ensures f.allowComments ==>
      SkipCommentTokens(f, doc, pos) == SkipCommentTokens(f, doc, TokenAt(f, doc, pos).end)
  {
    hide TokenAt;
  }

  // ----- punctuation and words -----

  lemma PunctuationToken(f: Features, doc: Text, start: nat)
    requires start < |doc| && doc[start] in {123, 125, 91, 93, 44, 58}
    ensures var c := doc[start];
      TokenAt(f, doc, start)
        == Token(if c == 123 then ObjectBegin else if c == 125 then ObjectEnd
                 else if c == 91 then ArrayBegin else if c == 93 then ArrayEnd
                 else if c == 44 then ArraySeparator else MemberSeparator, start, start + 1)
  {
  }

  lemma EndToken(f: Features, doc: Text, start: nat)
    requires start <= |doc| && (start < |doc| ==> doc[start] == 0)
    ensures TokenAt(f, doc, start).kind == EndOfStream
  {
  }

  predicate IsWord(t: Syntax) { t.NullSyntax? || t.BoolSyntax? }

  lemma WordToken(f: Features, doc: Text, start: nat, t: Syntax)
    requires IsWord(t) && HasAt(doc, start, SyntaxText(t))
    ensures start + |SyntaxText(t)| <= |doc|
    ensures TokenAt(f, doc, start)
      == Token(if t.NullSyntax? then NullToken else if t.b then TrueToken else FalseToken,
               start, start + |SyntaxText(t)|)
  {
    HasAtHead(doc, start, SyntaxText(t));
    assert SyntaxText(NullSyntax)[1..] == ULL;
    assert SyntaxText(BoolSyntax(true))[1..] == RUE && SyntaxText(BoolSyntax(false))[1..] == ALSE;
  }

  lemma SpecialToken(f: Features, doc: Text, start: nat, s: Special)
    requires HasAt(doc, start, SpecialText(s))
    ensures start + |SpecialText(s)| <= |doc|
    ensures var t := TokenAt(f, doc, start);
      if f.allowSpecialFloats then
        t == Token(if s.NotANumberWord? then NaNToken else if s.MinusInfinityWord? then NegInfToken else PosInfToken,
                   start, start + |SpecialText(s)|)
      else t.kind == ErrorToken
  {
    HasAtHead(doc, start, SpecialText(s));
    match s
    case NotANumberWord => assert SpecialText(s)[1..] == AN;
    case InfinityWord => assert SpecialText(s)[1..] == NFINITY;
    case _ =>
      HasAtHead(doc, start + 1, SpecialText(s)[1..]);
      assert SpecialText(s)[1..][1..] == NFINITY;
  }

  // ----- strings -----

  lemma {:induction false} ScanClosed(doc: Text, pos: nat, t: Text, quote: Byte)
    requires Closed(t, quote) && HasAt(doc, pos, t) && quote != 92
    requires pos + |t| < |doc| && doc[pos + |t|] == quote
    ensures JsonString.Scan(doc, pos, quote) == (true, pos + |t| + 1)
    decreases |t|
  {
    if t != [] {
      HasAtHead(doc, pos, t);
      if t[0] == 92 && |t| >= 2 && Closed(t[2..], quote) {
        HasAtHead(doc, pos + 1, t[1..]);
        assert t[1..][1..] == t[2..];
        ScanClosed(doc, pos + 2, t[2..], quote);
      } else {
        ScanClosed(doc, pos + 1, t[1..], quote);
      }
    }
  }

  lemma {:induction false} ClosedConcat(a: Text, b: Text, quote: Byte)
    requires Closed(a, quote) && Closed(b, quote)
    ensures Closed(a + b, quote)
  {
    if a == [] {
      assert a + b == b;
    } else if a[0] == 92 && |a| >= 2 && Closed(a[2..], quote) {
      ClosedConcat(a[2..], b, quote);
      assert (a + b)[2..] == a[2..] + b;
    } else {
      ClosedConcat(a[1..], b, quote);
      assert (a + b)[1..] == a[1..] + b;
    }
  }

  lemma CharClosed(ch: Char, quote: Byte)
    requires CharWellFormed(ch) && ch != Raw(quote) && (quote == 34 || quote == 39)
    ensures Closed(CharText(ch), quote)
  {
    if ch.Hex? {
      var t := CharText(ch);
      var h := ch.h;
      assert t[2..] == h && HexByte(h[0]) && HexByte(h[1]) && HexByte(h[2]) && HexByte(h[3]);
      assert Closed(h[4..], quote);
      assert h[3..][1..] == h[4..] && Closed(h[3..], quote);
      assert h[2..][1..] == h[3..] && Closed(h[2..], quote);
      assert h[1..][1..] == h[2..] && Closed(h[1..], quote);
    } else if ch.Short? {
      assert Closed(CharText(ch)[2..], quote);
    } else {
      assert Closed(CharText(ch)[1..], quote);
    }
  }

  lemma {:induction false} CharsClosed(chars: seq<Char>, quote: Byte)
    requires CharsWellFormed(chars) && (quote == 34 || quote == 39)
    requires forall k :: 0 <= k < |chars| ==> chars[k] != Raw(quote)
    ensures Closed(CharsText(chars), quote)
  {
    hide CharText, CharWellFormed;
    if chars != [] {
      CharsClosed(chars[1..], quote);
      CharClosed(chars[0], quote);
      ClosedConcat(CharText(chars[0]), CharsText(chars[1..]), quote);
    }
  }

  lemma HexByteIs(b: Byte)
    ensures HexByte(b) <==> JsonString.HexValue(b) >= 0
    ensures HexByte(b) ==> HexByteValue(b) == JsonString.HexValue(b)
  {
  }

  lemma HexRead(doc: Text, cur: nat, end: nat, h: Text)
    requires CharWellFormed(Hex(h)) && cur <= end <= |doc| && HasAt(doc, cur, h) && cur + 4 <= end
    ensures HexNumber(h) < 0x10000
    ensures JsonString.FourHexDigits(doc, cur, end) == JsonString.Got(HexNumber(h), cur + 4)
  {
    hide HexByte, HexByteValue, JsonString.HexValue;
    HasAtIndex(doc, cur, h, 0);
    HasAtIndex(doc, cur, h, 1);
    HasAtIndex(doc, cur, h, 2);
    HasAtIndex(doc, cur, h, 3);
    HexByteIs(h[0]);
    HexByteIs(h[1]);
    HexByteIs(h[2]);
    HexByteIs(h[3]);
  }

  lemma ShortIs(c: Byte)
    ensures ShortMeaning(c) == JsonString.Unescaped(c)
  {
  }

  predicate Decodes(d: JsonString.Decoded, acc: Text, r: JsonString.Decoded) {
    d == Joined(acc, r)
  }

  lemma DecodesMore(d: JsonString.Decoded, acc: Text, head: Text, tail: JsonString.Decoded)
    requires Decodes(d, acc + head, tail)
    ensures Decodes(d, acc, Joined(head, tail))
  {
    if tail.Plain? {
      assert acc + head + tail.text == acc + (head + tail.text);
    }
  }

  lemma {:induction false} CharsConcat(a: seq<Char>, b: seq<Char>)
    ensures CharsText(a + b) == CharsText(a) + CharsText(b)
  {
    hide CharText, CharsText;
    if a == [] {
      NoChars();
      assert a + b == b;
    } else {
      CharsConcat(a[1..], b);
      assert a + b == [a[0]] + (a[1..] + b);
      CharsCons(a[0], a[1..] + b);
      CharsCons(a[0], a[1..]);
      assert a == [a[0]] + a[1..];
    }
  }

  lemma NoChars()
    ensures CharsText([]) == []
  {
  }

  lemma CharsCons(ch: Char, rest: seq<Char>)
    ensures CharsText([ch] + rest) == CharText(ch) + CharsText(rest)
  {
    hide CharText;
    assert ([ch] + rest)[1..] == rest;
  }

  lemma SingleChar(ch: Char)
    ensures CharsText([ch]) == CharText(ch)
  {
    hide CharText;
  }

  lemma HeadText(doc: Text, cur: nat, chars: seq<Char>)
    requires chars != [] && HasAt(doc, cur, CharsText(chars))
    ensures HasAt(doc, cur, CharText(chars[0]))
    ensures HasAt(doc, cur + |CharText(chars[0])|, CharsText(chars[1..]))
    ensures |CharsText(chars)| == |CharText(chars[0])| + |CharsText(chars[1..])|
  {
    hide CharText;
    HasAtSplit(doc, cur, CharText(chars[0]), CharsText(chars[1..]));
  }

  lemma UnicodeStep(doc: Text, cur: nat, end: nat, acc: Text)
    requires cur + 2 <= end <= |doc| && doc[cur] == 92 && doc[cur + 1] == 117
    ensures JsonString.DecodeFrom(doc, cur, end, acc) ==
      match JsonString.CodePointEscape(doc, cur + 2, end)
      case Bad(message) => JsonString.Malformed(message)
      case Got(cp, next) => JsonString.DecodeFrom(doc, next, end, acc + Utf8.Encode(cp))
  {
  }

  lemma HexAt(doc: Text, cur: nat, h: Text)
    requires CharWellFormed(Hex(h)) && HasAt(doc, cur, CharText(Hex(h)))
    ensures cur + 6 <= |doc| && doc[cur] == 92 && doc[cur + 1] == 117 && HasAt(doc, cur + 2, h)
  {
    HasAtBound(doc, cur, CharText(Hex(h)));
    HasAtIndex(doc, cur, CharText(Hex(h)), 0);
    HasAtIndex(doc, cur, CharText(Hex(h)), 1);
    HasAtSplit(doc, cur, [92, 117], h);
  }

  /** The bytes one character denotes if it is no first half of a pair. */
  function PlainMeaning(ch: Char): JsonString.Decoded {
    match ch
    case Raw(b) => JsonString.Plain([b])
    case Short(c) =>
      if ShortMeaning(c) < 0 then JsonString.Malformed(BadEscape) else JsonString.Plain([ShortMeaning(c)])
    case Hex(h) => JsonString.Plain(Utf8.Encode(HexNumber(h)))
  }

  lemma PlainStep(doc: Text, cur: nat, end: nat, ch: Char, acc: Text)
    requires CharWellFormed(ch) && !IsHigh(ch)
    requires cur <= end <= |doc| && HasAt(doc, cur, CharText(ch)) && cur + |CharText(ch)| <= end
    ensures JsonString.DecodeFrom(doc, cur, end, acc) ==
      match PlainMeaning(ch)
      case Plain(t) => JsonString.DecodeFrom(doc, cur + |CharText(ch)|, end, acc + t)
      case Malformed(message) => JsonString.Malformed(message)
  {
    hide Utf8.Encode, HexNumber;
    match ch
    case Raw(b) =>
      HasAtHead(doc, cur, CharText(ch));
    case Short(c) =>
      HasAtIndex(doc, cur, CharText(ch), 0);
      HasAtIndex(doc, cur, CharText(ch), 1);
      ShortIs(c);
    case Hex(h) =>
      HexAt(doc, cur, h);
      HexRead(doc, cur + 2, end, h);
      UnicodeStep(doc, cur, end, acc);
  }

  lemma CombineIs(high: nat, low: nat)
    requires 0xD800 <= high <= 0xDBFF
    ensures Utf8.Combine(high, low) == 0x10000 + (high - 0xD800) * 1024 + low % 1024
  {
    assert high == 0xD800 + (high - 0xD800) && 0xD800 == 54 * 1024;
  }

  /** A first half with an escape behind it. */
  lemma PairStep(doc: Text, cur: nat, end: nat, high: Text, low: Text, acc: Text)
    requires CharWellFormed(Hex(high)) && IsHigh(Hex(high)) && CharWellFormed(Hex(low))
    requires cur + 12 <= end <= |doc|
    requires HasAt(doc, cur, CharText(Hex(high))) && HasAt(doc, cur + 6, CharText(Hex(low)))
    ensures JsonString.DecodeFrom(doc, cur, end, acc)
         == JsonString.DecodeFrom(doc, cur + 12, end, acc + PairMeaning(high, low))
  {
    hide JsonString.DecodeFrom, JsonString.FourHexDigits, HasAt, Utf8.Encode, Utf8.Combine, HexNumber;
    HexAt(doc, cur, high);
    HexAt(doc, cur + 6, low);
    HexRead(doc, cur + 2, end, high);
    HexRead(doc, cur + 8, end, low);
    UnicodeStep(doc, cur, end, acc);
    CombineIs(HexNumber(high), HexNumber(low));
  }

  /** A first half with anything else behind it. */
  lemma LoneStep(doc: Text, cur: nat, end: nat, high: Text, rest: seq<Char>, more: nat, acc: Text)
    requires CharWellFormed(Hex(high)) && IsHigh(Hex(high)) && CharsWellFormed(rest)
    requires rest != [] ==> !rest[0].Hex?
    requires cur <= end < |doc| && HasAt(doc, cur, CharText(Hex(high)))
    requires HasAt(doc, cur + 6, CharsText(rest)) && cur + 6 + |CharsText(rest)| + more == end
    requires more > 0 ==> doc[cur + 6 + |CharsText(rest)|] == 34
    ensures JsonString.DecodeFrom(doc, cur, end, acc)
         == JsonString.Malformed(if |CharsText(rest)| + more < 6 then SixMoreExpected else SecondHalfExpected)
  {
    hide JsonString.DecodeFrom, JsonString.FourHexDigits, HasAt, HexNumber;
    HexAt(doc, cur, high);
    HexRead(doc, cur + 2, end, high);
    UnicodeStep(doc, cur, end, acc);
    if rest == [] {
      assert CharsText([]) == [];
    } else {
      HeadText(doc, cur + 6, rest);
      assert CharWellFormed(rest[0]);
      HasAtHead(doc, cur + 6, CharText(rest[0]));
      if rest[0].Short? {
        HasAtIndex(doc, cur + 6, CharText(rest[0]), 1);
        assert rest[0].c != 117;
      }
    }
  }

  /** Decoding the text of characters gives what they denote, or fails where they denote
      nothing; behind them the text ends, or goes on with a double quote. */
  lemma {:induction false} CharsDecode(doc: Text, cur: nat, end: nat, chars: seq<Char>, more: nat, acc: Text)
    requires CharsWellFormed(chars) && cur <= end < |doc|
    requires HasAt(doc, cur, CharsText(chars)) && cur + |CharsText(chars)| + more == end
    requires more > 0 ==> doc[end - more] == 34
    ensures Decodes(JsonString.DecodeFrom(doc, cur, end, acc), acc, Characters(chars, more))
    decreases |chars|
  {
    hide HasAt, JsonString.DecodeFrom, CharWellFormed, IsHigh, PairMeaning, CharText, Utf8.Encode, HexNumber;
    if chars == [] {
      NothingDecodes(doc, cur, end, acc);
    } else {
      var ch, rest := chars[0], chars[1..];
      HeadText(doc, cur, chars);
      if !IsHigh(ch) {
        PlainStep(doc, cur, end, ch, acc);
        if PlainMeaning(ch).Plain? {
          var head := PlainMeaning(ch).text;
          CharsDecode(doc, cur + |CharText(ch)|, end, rest, more, acc + head);
          DecodesMore(JsonString.DecodeFrom(doc, cur, end, acc), acc, head, Characters(rest, more));
        }
      } else {
        HighIsHex(ch);
        if rest == [] || !rest[0].Hex? {
          LoneStep(doc, cur, end, ch.h, rest, more, acc);
        } else {
          assert CharWellFormed(rest[0]);
          HexLength(rest[0]);
          HeadText(doc, cur + 6, rest);
          assert rest[1..] == chars[2..] && rest[0] == chars[1];
          var head := PairMeaning(ch.h, rest[0].h);
          PairStep(doc, cur, end, ch.h, rest[0].h, acc);
          CharsDecode(doc, cur + 12, end, chars[2..], more, acc + head);
          DecodesMore(JsonString.DecodeFrom(doc, cur, end, acc), acc, head, Characters(chars[2..], more));
        }
      }
    }
  }

  lemma HighIsHex(ch: Char)
    requires CharWellFormed(ch) && IsHigh(ch)
    ensures ch.Hex? && |CharText(ch)| == 6
  {
  }

  lemma HexLength(ch: Char)
    requires ch.Hex? && CharWellFormed(ch)
    ensures |CharText(ch)| == 6
  {
  }

  lemma NothingDecodes(doc: Text, cur: nat, end: nat, acc: Text)
    requires cur <= end < |doc| && (cur == end || doc[cur] == 34)
    ensures JsonString.DecodeFrom(doc, cur, end, acc) == JsonString.Plain(acc + [])
  {
    assert acc + [] == acc;
  }

  lemma EmptyFront(d: JsonString.Decoded)
    ensures Joined([], d) == d
  {
  }

  lemma QuotationStands(doc: Text, start: nat, q: Quotation)
    requires QuotationWellFormed(q) && HasAt(doc, start, QuotationText(q))
    ensures var body := CharsText(q.chars);
      && start + |QuotationText(q)| == start + 2 + |body| + |q.tail| <= |doc|
      && doc[start] == Mark(q) && doc[start + 1 + |body| + |q.tail|] == Mark(q)
      && HasAt(doc, start + 1, body) && HasAt(doc, start + 1, body + q.tail)
      && (q.tail != [] ==> doc[start + 1 + |body|] == 34)
  {
    hide HasAt, CharsText, CharsWellFormed;
    var body, quote := CharsText(q.chars), [Mark(q)];
    HasAtBound(doc, start, QuotationText(q));
    HasAtSplit(doc, start, quote, (body + q.tail) + quote);
    HasAtSplit(doc, start + 1, body + q.tail, quote);
    HasAtSplit(doc, start + 1, body, q.tail);
    HasAtIndex(doc, start, quote, 0);
    HasAtIndex(doc, start + 1 + |body + q.tail|, quote, 0);
    if q.tail != [] {
      HasAtIndex(doc, start + 1 + |body|, q.tail, 0);
    }
  }

  /** The token of a string, and what it decodes to. */
  lemma StringRead(f: Features, doc: Text, start: nat, q: Quotation)
    requires QuotationWellFormed(q) && HasAt(doc, start, QuotationText(q))
    ensures start + |QuotationText(q)| <= |doc| && |QuotationText(q)| >= 2
    ensures q.single && !f.allowSingleQuotes ==> TokenAt(f, doc, start) == Token(ErrorToken, start, start + 1)
    ensures !q.single || f.allowSingleQuotes ==>
      TokenAt(f, doc, start) == Token(StringToken, start, start + |QuotationText(q)|)
    ensures JsonString.Decode(doc, start, start + |QuotationText(q)|) == QuotationMeaning(q)
  {
    hide HasAt, CharsText, JsonString.DecodeFrom, JsonString.Scan, Characters, CharsWellFormed, Closed;
    var body := CharsText(q.chars);
    QuotationStands(doc, start, q);
    CharsClosed(q.chars, Mark(q));
    TailClosed(q);
    ClosedConcat(body, q.tail, Mark(q));
    ScanClosed(doc, start + 1, body + q.tail, Mark(q));
    CharsDecode(doc, start + 1, start + 1 + |body| + |q.tail|, q.chars, |q.tail|, []);
    EmptyFront(QuotationMeaning(q));
  }

  lemma TailClosed(q: Quotation)
    requires QuotationWellFormed(q)
    ensures Closed(q.tail, Mark(q))
  {
  }

  // ----- numbers -----

  lemma {:induction false} DigitsRun(doc: Text, pos: nat, t: Text)
    requires HasAt(doc, pos, t) && AreDigits(t)
    requires pos + |t| < |doc| ==> !(48 <= doc[pos + |t|] <= 57)
    ensures pos + |t| <= |doc| && DigitsEnd(doc, pos) == pos + |t|
    decreases |t|
  {
    if t != [] {
      HasAtHead(doc, pos, t);
      DigitsRun(doc, pos + 1, t[1..]);
    }
  }

  lemma ExponentRun(doc: Text, pos: nat, t: Text)
    requires HasAt(doc, pos, t) && ExponentWellFormed(t) && Delimited(doc, pos + |t|)
    ensures pos + |t| <= |doc| && ExponentEnd(doc, pos) == pos + |t|
  {
    hide HasAt;
    HasAtBound(doc, pos, t);
    if t != [] {
      var skip := if |t| > 1 && (t[1] == 43 || t[1] == 45) then 2 else 1;
      HasAtIndex(doc, pos, t, 0);
      if |t| > 1 {
        HasAtIndex(doc, pos, t, 1);
      }
      assert t == t[..skip] + t[skip..];
      HasAtSplit(doc, pos, t[..skip], t[skip..]);
      DigitsRun(doc, pos + skip, t[skip..]);
    }
  }

  lemma FractionRun(doc: Text, pos: nat, t: Text)
    requires HasAt(doc, pos, t) && FractionWellFormed(t)
    requires pos + |t| < |doc| ==> !(48 <= doc[pos + |t|] <= 57)
    requires t == [] ==> CharAt(doc, pos) != 46
    ensures pos + |t| <= |doc| && FractionEnd(doc, pos) == pos + |t|
  {
    if t != [] {
      HasAtHead(doc, pos, t);
      DigitsRun(doc, pos + 1, t[1..]);
    }
  }

  lemma NumeralParts(doc: Text, start: nat, n: Numeral)
    requires HasAt(doc, start, NumeralText(n))
    ensures var first := start + |SignText(n.sign)|;
      && (n.sign != NoSign ==> start < |doc| && doc[start] == (if n.sign == PlusSign then 43 else 45))
      && HasAt(doc, first, n.digits) && HasAt(doc, first + |n.digits|, n.fraction)
      && HasAt(doc, first + |n.digits| + |n.fraction|, n.exponent)
      && start + |NumeralText(n)| == first + |n.digits| + |n.fraction| + |n.exponent| <= |doc|
  {
    hide HasAt;
    var sign := SignText(n.sign);
    HasAtBound(doc, start, NumeralText(n));
    HasAtSplit(doc, start, sign, n.digits + (n.fraction + n.exponent));
    HasAtSplit(doc, start + |sign|, n.digits, n.fraction + n.exponent);
    HasAtSplit(doc, start + |sign| + |n.digits|, n.fraction, n.exponent);
    if n.sign != NoSign {
      HasAtIndex(doc, start, sign, 0);
    }
  }

  /** What stands where the digits, the fraction and the exponent of a number end. */
  lemma NumeralStops(doc: Text, first: nat, n: Numeral)
    requires NumeralWellFormed(n)
    requires HasAt(doc, first, n.digits) && HasAt(doc, first + |n.digits|, n.fraction)
    requires HasAt(doc, first + |n.digits| + |n.fraction|, n.exponent)
    requires Delimited(doc, first + |n.digits| + |n.fraction| + |n.exponent|)
    ensures var point := first + |n.digits|;
      var letter := point + |n.fraction|;
      && letter <= |doc|
      && (letter < |doc| ==> !(48 <= doc[letter] <= 57))
      && (point < |doc| ==> !(48 <= doc[point] <= 57) && (n.fraction == [] ==> doc[point] != 46) && doc[point] != 73)
      && ExponentEnd(doc, letter) == letter + |n.exponent|
  {
    hide HasAt;
    var point := first + |n.digits|;
    var letter := point + |n.fraction|;
    HasAtBound(doc, point, n.fraction);
    ExponentRun(doc, letter, n.exponent);
    if n.exponent != [] {
      HasAtIndex(doc, letter, n.exponent, 0);
    }
    if n.fraction != [] {
      HasAtIndex(doc, point, n.fraction, 0);
    }
  }

  lemma NumeralEnds(doc: Text, first: nat, n: Numeral)
    requires NumeralWellFormed(n)
    requires HasAt(doc, first, n.digits) && HasAt(doc, first + |n.digits|, n.fraction)
    requires HasAt(doc, first + |n.digits| + |n.fraction|, n.exponent)
    requires Delimited(doc, first + |n.digits| + |n.fraction| + |n.exponent|)
    ensures first + |n.digits| + |n.fraction| + |n.exponent| <= |doc|
    ensures NumberEnd(doc, first) == first + |n.digits| + |n.fraction| + |n.exponent|
    ensures first < |doc| ==> doc[first] != 73
    ensures n.digits != [] ==>
      first < |doc| && IsDigit(doc[first]) && NumberEnd(doc, first + 1) == NumberEnd(doc, first)
  {
    hide HasAt, ExponentWellFormed, FractionWellFormed, Delimited, ExponentEnd, FractionEnd;
    var point := first + |n.digits|;
    NumeralStops(doc, first, n);
    FractionRun(doc, point, n.fraction);
    DigitsRun(doc, first, n.digits);
    if n.digits != [] {
      HasAtHead(doc, first, n.digits);
      DigitsRun(doc, first + 1, n.digits[1..]);
    }
  }

  /** The token of a number, and what it decodes to. */
  lemma NumberRead(c: Config, doc: Text, start: nat, n: Numeral)
    requires NumeralWellFormed(n) && HasAt(doc, start, NumeralText(n))
    requires Delimited(doc, start + |NumeralText(n)|)
    ensures NumeralText(n) != [] && start + |NumeralText(n)| <= |doc|
    ensures TokenAt(c.features, doc, start) == Token(NumberToken, start, start + |NumeralText(n)|)
    ensures JsonParser.DecodeNumber(c, doc, TokenAt(c.features, doc, start)) == NumberMeaning(c, n)
  {
    hide HasAt, NumberEnd, DecodedInteger, NumeralWellFormed, Decimal, NumeralText, Delimited;
    NumeralParts(doc, start, n);
    NumeralEnds(doc, start + |SignText(n.sign)|, n);
    NumeralIsText(n);
    NumeralDecodes(n);
    HasAtIs(doc, start, NumeralText(n));
  }

  lemma NumeralIsText(n: Numeral)
    requires NumeralWellFormed(n)
    ensures NumeralText(n) != [] && (n.digits == [] ==> n.sign != NoSign)
  {
  }

  lemma HasAtIs(doc: Text, pos: nat, t: Text)
    requires HasAt(doc, pos, t)
    ensures pos + |t| <= |doc| && doc[pos..pos + |t|] == t
  {
  }

  lemma {:induction false} DecimalIs(t: Text)
    requires AreDigits(t)
    ensures AllDigits(t) && Decimal(t) == Denoted(t)
  {
    if t != [] {
      DecimalIs(t[..|t| - 1]);
    }
  }

  lemma NumeralDecodes(n: Numeral)
    requires NumeralWellFormed(n)
    ensures DecodedInteger(NumeralText(n), MAX_LARGEST_INT) ==
      var m: int := Decimal(n.digits);
      if n.sign.PlusSign? || n.fraction != [] || n.exponent != []
         || m > (if n.sign.MinusSign? then 0x8000_0000_0000_0000 else 0xFFFF_FFFF_FFFF_FFFF) then Fallback
      else if n.sign.MinusSign? then Signed(-m)
      else if m < 0x8000_0000_0000_0000 then Signed(m)
      else Unsigned(m)
  {
    hide Denoted, Decimal;
    var t := NumeralText(n);
    var magnitude := n.digits + (n.fraction + n.exponent);
    DecimalIs(n.digits);
    if n.sign.PlusSign? {
      assert t[0] == 43 && Magnitude(t) == t;
    } else {
      NumeralMagnitude(n);
      if n.fraction != [] {
        assert magnitude[|n.digits|] == 46;
      } else if n.exponent != [] {
        assert magnitude[|n.digits|] == n.exponent[0];
      } else {
        assert magnitude == n.digits;
      }
    }
  }

  lemma NumeralMagnitude(n: Numeral)
    requires NumeralWellFormed(n) && n.sign != PlusSign
    ensures Magnitude(NumeralText(n)) == n.digits + (n.fraction + n.exponent)
    ensures Negative(NumeralText(n)) <==> n.sign == MinusSign
  {
    var t := NumeralText(n);
    assert t[0] == if n.sign == MinusSign then 45 else n.digits[0];
  }
}
