/** The tokens of OurReader::readToken as functions of the document and a position. */
module JsonLexer {
  import opened Bytes
  import opened JsonNumber
  import JsonString

  datatype Kind =
    | EndOfStream
    | ObjectBegin
    | ObjectEnd
    | ArrayBegin
    | ArrayEnd
    | StringToken
    | NumberToken
    | TrueToken
    | FalseToken
    | NullToken
    | NaNToken
    | PosInfToken
    | NegInfToken
    | ArraySeparator
    | MemberSeparator
    | CommentToken
    | ErrorToken

  datatype Token = Token(kind: Kind, start: nat, end: nat)

  datatype Features = Features(
    allowComments: bool,
    allowTrailingCommas: bool,
    strictRoot: bool,
    allowDroppedNullPlaceholders: bool,
    allowNumericKeys: bool,
    allowSingleQuotes: bool,
    failIfExtra: bool,
    rejectDupKeys: bool,
    allowSpecialFloats: bool,
    skipBom: bool,
    stackLimit: nat)

  const RUE: Text := [114, 117, 101]
  const ALSE: Text := [97, 108, 115, 101]
  const ULL: Text := [117, 108, 108]
  const AN: Text := [97, 78]
  const NFINITY: Text := [110, 102, 105, 110, 105, 116, 121]

  predicate IsSpace(c: Byte) { c == 32 || c == 9 || c == 13 || c == 10 }

  /** getNextChar reads 0 at the end, as it does for a zero byte. */
  function CharAt(doc: Text, pos: nat): Byte {
    if pos < |doc| then doc[pos] else 0
  }

  function Advance(doc: Text, pos: nat): nat {
    if pos < |doc| then pos + 1 else pos
  }

  function SkipSpaces(doc: Text, pos: nat): (r: nat)
    requires pos <= |doc|
    ensures pos <= r <= |doc| && (r < |doc| ==> !IsSpace(doc[r]))
    decreases |doc| - pos
  {
    if pos < |doc| && IsSpace(doc[pos]) then SkipSpaces(doc, pos + 1) else pos
  }

  function DigitsEnd(doc: Text, pos: nat): (r: nat)
    requires pos <= |doc|
    ensures pos <= r <= |doc|
    decreases |doc| - pos
  {
    if pos < |doc| && IsDigit(doc[pos]) then DigitsEnd(doc, pos + 1) else pos
  }

  function FractionEnd(doc: Text, pos: nat): (r: nat)
    requires pos <= |doc|
    ensures pos <= r <= |doc|
  {
    if CharAt(doc, pos) == 46 then DigitsEnd(doc, pos + 1) else pos
  }

  function ExponentEnd(doc: Text, pos: nat): (r: nat)
    requires pos <= |doc|
    ensures pos <= r <= |doc|
  {
    if CharAt(doc, pos) == 101 || CharAt(doc, pos) == 69 then
      var sign := CharAt(doc, pos + 1);
      DigitsEnd(doc, if sign == 43 || sign == 45 then pos + 2 else pos + 1)
    else pos
  }

  /** readNumber without the test for an infinity. */
  function NumberEnd(doc: Text, pos: nat): (r: nat)
    requires pos <= |doc|
    ensures pos <= r <= |doc|
  {
    ExponentEnd(doc, FractionEnd(doc, DigitsEnd(doc, pos)))
  }

  /** Where the loop of readCStyleComment stops. */
  function CStyleStop(doc: Text, pos: nat): (r: nat)
    requires pos <= |doc|
    ensures pos <= r <= |doc|
    decreases |doc| - pos
  {
    if pos + 1 < |doc| then
      if doc[pos] == 42 && doc[pos + 1] == 47 then pos + 1 else CStyleStop(doc, pos + 1)
    else pos
  }

  function CppStyleEnd(doc: Text, pos: nat): (r: nat)
    requires pos <= |doc|
    ensures pos <= r <= |doc|
    decreases |doc| - pos
  {
    if pos == |doc| then pos
    else if doc[pos] == 10 then pos + 1
    else if doc[pos] == 13 then (if CharAt(doc, pos + 1) == 10 then pos + 2 else pos + 1)
    else CppStyleEnd(doc, pos + 1)
  }

  /** readComment, behind the first slash: whether it is a comment, and where it ends. */
  function ReadComment(doc: Text, pos: nat): (r: (bool, nat))
    requires pos <= |doc|
    ensures pos <= r.1 <= |doc|
  {
    var c, next := CharAt(doc, pos), Advance(doc, pos);
    if c == 42 then
      var stop := CStyleStop(doc, next);
      (CharAt(doc, stop) == 47, Advance(doc, stop))
    else if c == 47 then (true, CppStyleEnd(doc, next))
    else (false, next)
  }

  function Found(ok: bool, kind: Kind): Kind { if ok then kind else ErrorToken }

  /** A keyword of which the first letter stood at `start`. */
  function Keyword(doc: Text, start: nat, rest: Text, kind: Kind, allowed: bool): (t: Token)
    requires start < |doc|
    ensures t.start == start < t.end <= |doc|
  {
    if allowed && HasAt(doc, start + 1, rest) then Token(kind, start, start + 1 + |rest|)
    else Token(ErrorToken, start, start + 1)
  }

  /** A token that starts with a sign: a number, or an infinity. */
  function Signed(f: Features, doc: Text, start: nat, infinity: Kind): (t: Token)
    requires start < |doc|
    ensures t.start == start < t.end <= |doc|
  {
    if CharAt(doc, start + 1) != 73 then Token(NumberToken, start, NumberEnd(doc, start + 1))
    else if f.allowSpecialFloats && HasAt(doc, start + 2, NFINITY) then Token(infinity, start, start + 9)
    else Token(ErrorToken, start, start + 2)
  }

  function QuotedToken(doc: Text, start: nat, quote: Byte): (t: Token)
    requires start < |doc|
    ensures t.start == start < t.end <= |doc|
    ensures t.kind == StringToken || t.kind == ErrorToken
    ensures t.kind == StringToken ==> t.end >= start + 2
  {
    var (closed, end) := JsonString.Scan(doc, start + 1, quote);
    Token(Found(closed, StringToken), start, end)
  }

  function CommentFrom(doc: Text, start: nat): (t: Token)
    requires start < |doc|
    ensures t.start == start < t.end <= |doc|
  {
    var (ok, end) := ReadComment(doc, start + 1);
    Token(Found(ok, CommentToken), start, end)
  }

  predicate OneChar(k: Kind) {
    k == ObjectBegin || k == ObjectEnd || k == ArrayBegin || k == ArrayEnd
    || k == ArraySeparator || k == MemberSeparator
  }

  /** The token whose first character stands at `start`, no space being there. */
  function TokenAt(f: Features, doc: Text, start: nat): (t: Token)
    requires start <= |doc|
    ensures t.start == start <= t.end <= |doc|
    ensures t.end == start ==> t.kind == EndOfStream
    ensures OneChar(t.kind) ==> t.end == start + 1
    ensures t.kind == StringToken ==> t.end >= start + 2
  {
    var c := CharAt(doc, start);
    if c == 0 then Token(EndOfStream, start, Advance(doc, start))
    else if c == 123 then Token(ObjectBegin, start, start + 1)
    else if c == 125 then Token(ObjectEnd, start, start + 1)
    else if c == 91 then Token(ArrayBegin, start, start + 1)
    else if c == 93 then Token(ArrayEnd, start, start + 1)
    else if c == 34 then QuotedToken(doc, start, 34)
    else if c == 39 && f.allowSingleQuotes then QuotedToken(doc, start, 39)
    else if c == 47 then CommentFrom(doc, start)
    else if IsDigit(c) then Token(NumberToken, start, NumberEnd(doc, start + 1))
    else if c == 45 then Signed(f, doc, start, NegInfToken)
    else if c == 43 then Signed(f, doc, start, PosInfToken)
    else if c == 116 then Keyword(doc, start, RUE, TrueToken, true)
    else if c == 102 then Keyword(doc, start, ALSE, FalseToken, true)
    else if c == 110 then Keyword(doc, start, ULL, NullToken, true)
    else if c == 78 then Keyword(doc, start, AN, NaNToken, f.allowSpecialFloats)
    else if c == 73 then Keyword(doc, start, NFINITY, PosInfToken, f.allowSpecialFloats)
    else if c == 44 then Token(ArraySeparator, start, start + 1)
    else if c == 58 then Token(MemberSeparator, start, start + 1)
    else Token(ErrorToken, start, start + 1)
  }

  /** readToken: it succeeds exactly when the kind is not ErrorToken, and only the end
      of the stream consumes nothing. */
  function ReadToken(f: Features, doc: Text, pos: nat): (t: Token)
    requires pos <= |doc|
    ensures pos <= t.start <= t.end <= |doc|
    ensures t.end == t.start ==> t.kind == EndOfStream
    ensures OneChar(t.kind) ==> t.end == t.start + 1
    ensures t.kind == StringToken ==> t.end >= t.start + 2
  {
    TokenAt(f, doc, SkipSpaces(doc, pos))
  }

  /** The first token that is not a comment. */
  function NonComment(f: Features, doc: Text, pos: nat): (t: Token)
    requires pos <= |doc|
    ensures pos <= t.start <= t.end <= |doc|
    ensures t.end == t.start ==> t.kind == EndOfStream
    ensures OneChar(t.kind) ==> t.end == t.start + 1
    ensures t.kind == StringToken ==> t.end >= t.start + 2
    ensures t.kind != CommentToken
    decreases |doc| - pos
  {
    var t := ReadToken(f, doc, pos);
    if t.kind == CommentToken then NonComment(f, doc, t.end) else t
  }

  /** skipCommentTokens: where comments are not allowed they stay tokens. */
  function SkipCommentTokens(f: Features, doc: Text, pos: nat): (t: Token)
    requires pos <= |doc|
    ensures pos <= t.start <= t.end <= |doc|
    ensures t.end == t.start ==> t.kind == EndOfStream
    ensures OneChar(t.kind) ==> t.end == t.start + 1
    ensures t.kind == StringToken ==> t.end >= t.start + 2
  {
    if f.allowComments then NonComment(f, doc, pos) else ReadToken(f, doc, pos)
  }

  /** recoverFromError: the position behind the next token of kind `until`, or behind
      the end of the stream. */
  function Recover(f: Features, doc: Text, pos: nat, until: Kind): (r: nat)
    requires pos <= |doc|
    ensures pos <= r <= |doc|
    decreases |doc| - pos
  {
    var t := ReadToken(f, doc, pos);
    if t.kind == until || t.kind == EndOfStream then t.end else Recover(f, doc, t.end, until)
  }
}
