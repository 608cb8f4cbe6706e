/** The first error of a document that is no text of the grammar: which one it is, and where. */
module JsonFailures {
  import opened Bytes
  import opened JsonAccepts
  import opened JsonErrors
  import opened JsonGrammar
  import opened JsonLexer
  import opened JsonParser
  import opened JsonTokens
  import opened JsonValue
  import JsonString

  /** The first error is this one, and it is marked from here on. */
  ghost predicate FirstError(p: Parsed, message: Message, start: nat) {
    p.outcome == Failed && p.errors != [] && p.errors[0].message == message && p.errors[0].start == start
  }

  /** Two positions with only a filler between them, and no space at the second. */
  ghost predicate Apart(doc: Text, pos: nat, between: Filler, at: nat) {
    && FillerWellFormed(between) && HasAt(doc, pos, FillerText(between)) && at == pos + |FillerText(between)| <= |doc|
    && (at < |doc| ==> !White(doc[at]))
  }

  lemma ApartSkipped(f: Features, doc: Text, pos: nat, between: Filler, at: nat)
    requires Apart(doc, pos, between, at)
    ensures pos <= at && Skipped(f, doc, pos, at, HasComment(between))
  {
    hide Skipped, FillerText, HasComment, FillerWellFormed;
    FillerSkipped(f, doc, pos, between);
  }

  lemma OtherKind(f: Features, doc: Text, at: nat)
    requires at <= |doc|
    ensures var kind := TokenAt(f, doc, at).kind;
      && (kind == ObjectEnd <==> at < |doc| && doc[at] == 125) && (kind == ArrayEnd <==> at < |doc| && doc[at] == 93)
      && (kind == ArraySeparator <==> at < |doc| && doc[at] == 44)
      && (kind == MemberSeparator <==> at < |doc| && doc[at] == 58)
      && (kind == CommentToken ==> at < |doc| && doc[at] == 47)
      && (kind == StringToken ==> at < |doc| && (doc[at] == 34 || doc[at] == 39))
      && (kind == NumberToken ==> at < |doc| && (doc[at] in {43, 45} || 48 <= doc[at] <= 57))
  {
    hide JsonString.Scan, NumberEnd;
  }

  /** The bytes that a value can start with, extensions included, and those in front of which a
      null can be dropped. */
  predicate StartsValue(b: Byte) {
    b in {34, 39, 43, 44, 45, 47, 73, 78, 91, 93, 102, 110, 116, 123, 125} || 48 <= b <= 57
  }

  /** No value: the error marks where one should start. */
  lemma ValueMissing(c: Config, doc: Text, pos: nat, before: Filler, at: nat, depth: nat, prior: Value)
    requires Apart(doc, pos, before, at) && (HasComment(before) ==> c.features.allowComments)
    requires (at < |doc| ==> !StartsValue(doc[at])) && depth <= c.features.stackLimit
    ensures pos <= |doc| && FirstError(ParseValue(c, doc, pos, depth, prior), ValueExpected, at)
  {
    hide FillerText, FillerWellFormed, HasComment, SkipCommentTokens, NonComment, Leads, TokenAt, StartsValue, Leaf;
    ApartSkipped(c.features, doc, pos, before, at);
    SkippedLeads(c.features, doc, pos, at, HasComment(before));
    NotAToken(c.features, doc, at);
    LeadsTo(c.features, doc, pos, at);
    NoValueThere(c, doc, TokenAt(c.features, doc, at), prior);
  }

  lemma NoValueThere(c: Config, doc: Text, t: Token, prior: Value)
    requires t.kind in {EndOfStream, ErrorToken, MemberSeparator} && t.start <= t.end <= |doc|
    requires OneChar(t.kind) ==> t.end == t.start + 1
    ensures Leaf(c, doc, t, prior) == Parsed(Failed, t.end, prior, [ErrorInfo(t.start, t.end, ValueExpected)])
  {
  }

  lemma NotAToken(f: Features, doc: Text, at: nat)
    requires at <= |doc| && (at < |doc| ==> !StartsValue(doc[at]))
    ensures TokenAt(f, doc, at).kind in {EndOfStream, ErrorToken, MemberSeparator}
  {
  }

  /** No colon behind a name. */
  lemma ColonMissing(c: Config, doc: Text, pos: nat, between: Filler, at: nat, depth: nat, name: Text, ms: seq<Member>)
    requires Apart(doc, pos, between, at) && !HasComment(between) && (at < |doc| ==> doc[at] != 58)
    ensures pos <= |doc| && FirstError(ParseMember(c, doc, pos, depth, name, ms), MissingColon, at)
  {
    hide FillerText, FillerWellFormed, ParseMember, TokenAt, NonComment, SkipCommentTokens, Recover;
    ApartSkipped(c.features, doc, pos, between, at);
    OtherKind(c.features, doc, at);
    MemberUnfold(c, doc, pos, depth, name, ms);
  }

  /** Neither comma nor bracket behind an element. */
  lemma CommaMissingInArray(c: Config, doc: Text, end: nat, between: Filler, at: nat, depth: nat, slots: seq<Slot>,
                            v: Value)
    requires Apart(doc, end, between, at) && (at < |doc| ==> doc[at] !in {44, 47, 93})
    ensures end <= |doc|
    ensures FirstError(AfterElement(c, doc, depth, slots, Parsed(Success, end, v, [])), MissingCommaOrBracket, at)
  {
    hide FillerText, FillerWellFormed, TokenAt, NonComment, SkipCommentTokens, Recover, HasComment, ParseElements;
    ApartSkipped(c.features, doc, end, between, at);
    OtherKind(c.features, doc, at);
    NoSpace(c.features, doc, at);
  }

  /** Neither comma nor brace behind a member, nor a comment. */
  lemma CommaMissingInObject(c: Config, doc: Text, end: nat, between: Filler, at: nat, depth: nat, name: Text,
                             ms: seq<Member>, v: Value)
    requires Apart(doc, end, between, at) && !HasComment(between) && (at < |doc| ==> doc[at] !in {44, 47, 125})
    ensures end <= |doc|
    ensures FirstError(AfterMember(c, doc, depth, name, ms, Parsed(Success, end, v, [])), MissingCommaOrBrace, at)
  {
    hide FillerText, FillerWellFormed, TokenAt, NonComment, SkipCommentTokens, Recover, ParseMembers;
    ApartSkipped(c.features, doc, end, between, at);
    OtherKind(c.features, doc, at);
  }

  /** No name where one should stand; a brace stands in place of one only in an empty object,
      behind an unnamed member, or where trailing commas are allowed. */
  lemma NameMissing(c: Config, doc: Text, pos: nat, before: Filler, at: nat, depth: nat, unnamed: bool, ms: seq<Member>)
    requires Apart(doc, pos, before, at)
    requires at < |doc| ==> doc[at] !in {34, 39, 43, 45, 47} && !(48 <= doc[at] <= 57)
    requires at < |doc| && doc[at] == 125 ==> !unnamed && !c.features.allowTrailingCommas
    ensures pos <= |doc| && FirstError(ParseMembers(c, doc, pos, depth, unnamed, ms), MissingBraceOrName, at)
  {
    hide FillerText, FillerWellFormed, TokenAt, NonComment, SkipCommentTokens, Recover, HasComment, ParseMembers;
    ApartSkipped(c.features, doc, pos, before, at);
    OtherKind(c.features, doc, at);
    NoSpace(c.features, doc, at);
    MembersUnfold(c, doc, pos, depth, unnamed, ms);
  }

  /** A name that cannot be used is marked from its first quote to behind its last. */
  lemma NameRefused(c: Config, doc: Text, pos: nat, before: Filler, at: nat, depth: nat, unnamed: bool, ms: seq<Member>,
                    q: Quotation)
    requires Apart(doc, pos, before, at) && QuotationWellFormed(q) && HasAt(doc, at, QuotationText(q))
    requires q.single ==> c.features.allowSingleQuotes
    ensures pos <= |doc|
    ensures var p := ParseMembers(c, doc, pos, depth, unnamed, ms);
      match QuotationMeaning(q)
      case Malformed(message) => p.errors == [ErrorInfo(at, at + |QuotationText(q)|, message)]
      case Plain(name) =>
        |name| < 0x4000_0000 && c.features.rejectDupKeys && HasKey(ms, name) ==>
          p.errors == [ErrorInfo(at, at + |QuotationText(q)|, DuplicateKey)]
  {
    hide FillerText, FillerWellFormed, TokenAt, NonComment, SkipCommentTokens, Recover, HasComment, ParseMembers;
    hide ParseMember, HasAt, QuotationText, QuotationWellFormed, QuotationMeaning, HasKey, JsonString.Decode;
    ApartSkipped(c.features, doc, pos, before, at);
    StringRead(c.features, doc, at, q);
    NameToken(c.features, doc, pos, at, HasComment(before));
    MembersUnfold(c, doc, pos, depth, unnamed, ms);
  }

  /** A string or a number that cannot be read is marked as a whole. */
  lemma StringRefused(c: Config, doc: Text, at: nat, prior: Value, q: Quotation, message: Message)
    requires QuotationWellFormed(q) && HasAt(doc, at, QuotationText(q)) && (q.single ==> c.features.allowSingleQuotes)
    requires QuotationMeaning(q) == JsonString.Malformed(message)
    ensures at <= |doc|
    ensures Leaf(c, doc, TokenAt(c.features, doc, at), prior).errors
         == [ErrorInfo(at, at + |QuotationText(q)|, message)]
  {
    hide TokenAt, HasAt, QuotationText, QuotationWellFormed, QuotationMeaning, JsonString.Decode;
    StringRead(c.features, doc, at, q);
  }

  lemma NumberRefused(c: Config, doc: Text, at: nat, prior: Value, n: Numeral, message: Message)
    requires NumeralWellFormed(n) && HasAt(doc, at, NumeralText(n)) && Delimited(doc, at + |NumeralText(n)|)
    requires NumberMeaning(c, n) == Rejected(message)
    ensures at <= |doc|
    ensures Leaf(c, doc, TokenAt(c.features, doc, at), prior).errors
         == [ErrorInfo(at, at + |NumeralText(n)|, message)]
  {
    hide TokenAt, HasAt, NumeralText, NumeralWellFormed, NumberMeaning, JsonParser.DecodeNumber, Delimited;
    NumberRead(c, doc, at, n);
  }

  /** An escape that is cut off, or has too few digits behind its u; and one with a digit that
      is none. */
  lemma EscapeRefused(doc: Text, cur: nat, end: nat, acc: Text)
    requires cur < end < |doc| && doc[cur] == 92
    ensures var d := JsonString.DecodeFrom(doc, cur, end, acc);
      && (cur + 1 == end ==> d == JsonString.Malformed(EmptyEscape))
      && (cur + 2 <= end < cur + 6 && doc[cur + 1] == 117 ==> d == JsonString.Malformed(FourDigitsExpected))
  {
  }

  lemma DigitRefused(doc: Text, cur: nat, end: nat, acc: Text, k: nat)
    requires cur + 6 <= end < |doc| && doc[cur] == 92 && doc[cur + 1] == 117
    requires 2 <= k < 6 && !HexByte(doc[cur + k])
    ensures JsonString.DecodeFrom(doc, cur, end, acc) == JsonString.Malformed(HexDigitExpected)
  {
    hide HexByte, JsonString.HexValue;
    HexByteIs(doc[cur + k]);
  }

  /** Something extra is marked where it stands; a root that is no array or object is marked
      as the whole document. */
  lemma RootRefused(c: Config, doc: Text, end: nat, between: Filler, at: nat, v: Value)
    requires Apart(doc, end, between, at) && (HasComment(between) ==> c.features.allowComments)
    requires at < |doc| ==> doc[at] in {44, 58, 93, 125}
    ensures end <= |doc|
    ensures var p := AfterDocument(c, doc, Parsed(Success, end, v, []));
      if c.features.failIfExtra && at < |doc| then p.errors == [ErrorInfo(at, at + 1, ExtraAfterValue)]
      else if c.features.strictRoot && !v.ArrayValue? && !v.ObjectValue? then
        p.errors == [ErrorInfo(0, |doc|, RootMustBeContainer)]
      else p.outcome == Success
  {
    hide FillerText, FillerWellFormed, TokenAt, NonComment, SkipCommentTokens, HasComment, Leads;
    ApartSkipped(c.features, doc, end, between, at);
    SkippedLeads(c.features, doc, end, at, HasComment(between));
    if at < |doc| {
      PunctuationToken(c.features, doc, at);
    } else {
      EndOfAll(c.features, doc);
    }
    LeadsTo(c.features, doc, end, at);
  }

  /** What was wrong inside a value is what is reported for the whole document, first. */
  lemma FirstErrorStays(c: Config, doc: Text, depth: nat, r: Parsed, slots: seq<Slot>, name: Text, ms: seq<Member>)
    requires r.outcome == Failed && r.errors != [] && r.pos <= |doc|
    ensures AfterElement(c, doc, depth, slots, r).errors == r.errors
    ensures AfterMember(c, doc, depth, name, ms, r).errors == r.errors
    ensures AfterDocument(c, doc, r).errors[..|r.errors|] == r.errors
  {
    hide Recover, SkipCommentTokens;
  }

  /** Recovery ends right behind the bracket it looks for, when only blanks stand before it, and
      goes on behind any other punctuation. */
  lemma RecoveryFinds(f: Features, doc: Text, pos: nat, between: Filler, at: nat, until: Kind)
    requires Apart(doc, pos, between, at) && !HasComment(between) && at < |doc|
    requires until == ObjectEnd || until == ArrayEnd
    ensures pos <= |doc|
    ensures doc[at] == (if until == ObjectEnd then 125 else 93) ==> Recover(f, doc, pos, until) == at + 1
    ensures doc[at] in {123, 125, 91, 93, 44, 58} && doc[at] != (if until == ObjectEnd then 125 else 93) ==>
      Recover(f, doc, pos, until) == Recover(f, doc, at + 1, until)
  {
    hide FillerText, FillerWellFormed, TokenAt, NonComment, SkipCommentTokens;
    ApartSkipped(f, doc, pos, between, at);
    if doc[at] in {123, 125, 91, 93, 44, 58} {
      PunctuationToken(f, doc, at);
    }
  }

  /** Without the bracket recovery goes to the end of the document, or behind a zero byte. */
  lemma {:induction false} RecoveryEnds(f: Features, doc: Text, pos: nat, until: Kind)
    requires pos <= |doc| && (until == ObjectEnd || until == ArrayEnd)
    ensures var r := Recover(f, doc, pos, until);
      r == |doc| || (r > 0 && doc[r - 1] in {0, if until == ObjectEnd then 125 else 93})
    decreases |doc| - pos
  {
    hide TokenAt;
    var t := ReadToken(f, doc, pos);
    LastByte(f, doc, SkipSpaces(doc, pos), until);
    if t.kind != until && t.kind != EndOfStream {
      RecoveryEnds(f, doc, t.end, until);
    }
  }

  lemma LastByte(f: Features, doc: Text, at: nat, until: Kind)
    requires at <= |doc| && (until == ObjectEnd || until == ArrayEnd)
    ensures var t := TokenAt(f, doc, at);
      && (t.kind == until ==> t.end == at + 1 <= |doc| && doc[at] == if until == ObjectEnd then 125 else 93)
      && (t.kind == EndOfStream ==> t.end == |doc| || (t.end == at + 1 <= |doc| && doc[at] == 0))
  {
    hide JsonString.Scan, NumberEnd;
  }
}
