/** OurReader's recursive descent as functions: what each read method leaves behind,
    given the document, the position and the depth of the node stack. */
module JsonParser {
  import opened Bytes
  import opened JsonErrors
  import opened JsonLexer
  import opened JsonNumber
  import opened JsonValue
  import JsonString

  /** Floating-point text is a parameter: how a token converts, and how a number prints. */
  datatype Doubles = Doubles(parse: Text -> Option<Double>, show: Double -> Text)

  datatype Option<T> = None | Some(value: T)

  datatype Config = Config(features: Features, doubles: Doubles)

  datatype Outcome = Success | Failed | Thrown

  /** The position, the value and the recorded errors after a read method. After a
      throw only the outcome matters. */
  datatype Parsed = Parsed(outcome: Outcome, pos: nat, val: Value, errors: seq<ErrorInfo>)

  function Threw(pos: nat): Parsed { Parsed(Thrown, pos, NullValue, []) }

  function AddErrorAndRecover(c: Config, doc: Text, t: Token, message: Message, until: Kind,
                              val: Value, errors: seq<ErrorInfo>): (p: Parsed)
    requires t.end <= |doc|
    ensures p.outcome == Failed && p.errors != []
  {
    Parsed(Failed, Recover(c.features, doc, t.end, until), val,
           errors + [ErrorInfo(t.start, t.end, message)])
  }

  // ----- leaves -----

  datatype Decoded = Value(v: Value) | Rejected(message: Message)

  function DecodeDouble(c: Config, text: Text): Decoded {
    match c.doubles.parse(text)
    case Some(d) => Decoded.Value(RealValue(d))
    case None => Rejected(NotANumber)
  }

  function DecodeNumber(c: Config, doc: Text, t: Token): Decoded
    requires t.start <= t.end <= |doc|
  {
    match DecodedInteger(doc[t.start..t.end], MAX_LARGEST_INT)
    case Signed(i) => Decoded.Value(IntValue(i))
    case Unsigned(u) => Decoded.Value(UIntValue(u))
    case Fallback => DecodeDouble(c, doc[t.start..t.end])
  }

  function DecodeString(doc: Text, t: Token): Decoded
    requires t.start + 2 <= t.end <= |doc|
  {
    match JsonString.Decode(doc, t.start, t.end)
    case Plain(text) => Decoded.Value(StringValue(text))
    case Malformed(message) => Rejected(message)
  }

  /** The text asString gives a numeric key. */
  function NumberText(c: Config, v: Value): Text {
    match v
    case IntValue(i) => IntegerText(i)
    case UIntValue(u) => IntegerText(u)
    case RealValue(d) => c.doubles.show(d)
    case _ => []
  }

  /** The tokens that may stand where a null was dropped. */
  predicate Closes(k: Kind) {
    k == ArraySeparator || k == ObjectEnd || k == ArrayEnd
  }

  /** A value that is one token; `prior` is what the current node holds before. */
  function Leaf(c: Config, doc: Text, t: Token, prior: Value): (p: Parsed)
    requires t.start <= t.end <= |doc| && (t.kind == StringToken ==> t.start + 2 <= t.end)
    requires OneChar(t.kind) ==> t.end == t.start + 1
    ensures t.start <= p.pos <= t.end && p.outcome != Thrown
    ensures p.outcome == Success <==> p.errors == []
  {
    if c.features.allowDroppedNullPlaceholders && Closes(t.kind) then
      Parsed(Success, t.end - 1, NullValue, []) // the token is un-read
    else match t.kind
    case NumberToken => LeafValue(DecodeNumber(c, doc, t), t, prior)
    case StringToken => LeafValue(DecodeString(doc, t), t, prior)
    case TrueToken => Parsed(Success, t.end, BoolValue(true), [])
    case FalseToken => Parsed(Success, t.end, BoolValue(false), [])
    case NullToken => Parsed(Success, t.end, NullValue, [])
    case NaNToken => Parsed(Success, t.end, RealValue(NaN), [])
    case PosInfToken => Parsed(Success, t.end, RealValue(PositiveInfinity), [])
    case NegInfToken => Parsed(Success, t.end, RealValue(NegativeInfinity), [])
    case _ => Parsed(Failed, t.end, prior, [ErrorInfo(t.start, t.end, ValueExpected)])
  }

  predicate IsConstant(t: Token, v: Value) {
    || ((t.kind == TrueToken || t.kind == FalseToken) && v == BoolValue(t.kind == TrueToken))
    || (t.kind == NullToken && v == NullValue) || (t.kind == NaNToken && v == RealValue(NaN))
    || (t.kind == PosInfToken && v == RealValue(PositiveInfinity))
    || (t.kind == NegInfToken && v == RealValue(NegativeInfinity))
  }

  /** The cases of Leaf that need no decoding. */
  lemma LeafConstant(c: Config, doc: Text, t: Token, prior: Value, v: Value)
    requires t.start <= t.end <= |doc| && (t.kind == StringToken ==> t.start + 2 <= t.end)
    requires OneChar(t.kind) ==> t.end == t.start + 1
    requires IsConstant(t, v)
    ensures Leaf(c, doc, t, prior) == Parsed(Success, t.end, v, [])
  {
  }

  lemma LeafOther(c: Config, doc: Text, t: Token, prior: Value)
    requires t.start <= t.end <= |doc| && (t.kind == StringToken ==> t.start + 2 <= t.end)
    requires OneChar(t.kind) ==> t.end == t.start + 1
    requires t.kind !in {NumberToken, StringToken, TrueToken, FalseToken, NullToken, NaNToken, PosInfToken, NegInfToken}
    ensures Leaf(c, doc, t, prior) ==
      if Closes(t.kind) && c.features.allowDroppedNullPlaceholders then Parsed(Success, t.end - 1, NullValue, [])
      else Parsed(Failed, t.end, prior, [ErrorInfo(t.start, t.end, ValueExpected)])
  {
  }

  lemma LeafDecoded(c: Config, doc: Text, t: Token, prior: Value)
    requires t.start <= t.end <= |doc| && (t.kind == StringToken ==> t.start + 2 <= t.end)
    requires t.kind == NumberToken || t.kind == StringToken
    ensures Leaf(c, doc, t, prior)
      == LeafValue(if t.kind == NumberToken then DecodeNumber(c, doc, t) else DecodeString(doc, t), t, prior)
  {
  }

  function LeafValue(d: Decoded, t: Token, prior: Value): Parsed {
    match d
    case Value(v) => Parsed(Success, t.end, v, [])
    case Rejected(message) => Parsed(Failed, t.end, prior, [ErrorInfo(t.start, t.end, message)])
  }

  // ----- values -----

  /** readValue with `depth` nodes on the stack, the top one holding `prior`. */
  function ParseValue(c: Config, doc: Text, pos: nat, depth: nat, prior: Value): (p: Parsed)
    requires pos <= |doc|
    ensures pos <= p.pos <= |doc|
    ensures p.outcome == Success ==> p.errors == []
    ensures p.outcome == Failed ==> p.errors != []
    decreases |doc| - pos, 0
  {
    if depth > c.features.stackLimit then Threw(pos) else
    var t := SkipCommentTokens(c.features, doc, pos);
    if t.kind == ObjectBegin then ParseMembers(c, doc, t.end, depth, true, [])
    else if t.kind == ArrayBegin then ParseElements(c, doc, t.end, depth, [])
    else Leaf(c, doc, t, prior)
  }

  /** The loop of readObject, `ms` being read already; `unnamed` says that the last name
      was empty, as it is at first. */
  function ParseMembers(c: Config, doc: Text, pos: nat, depth: nat, unnamed: bool, ms: seq<Member>): (p: Parsed)
    requires pos <= |doc|
    ensures pos <= p.pos <= |doc|
    ensures p.outcome == Success ==> p.errors == []
    ensures p.outcome == Failed ==> p.errors != []
    decreases |doc| - pos, 3
  {
    var t := NonComment(c.features, doc, pos);
    if t.kind == ObjectEnd && (unnamed || c.features.allowTrailingCommas) then
      Parsed(Success, t.end, ObjectValue(ms), [])
    else if t.kind == StringToken then
      ParseNamed(c, doc, t, depth, DecodeString(doc, t), ms)
    else if t.kind == NumberToken && c.features.allowNumericKeys then
      ParseNamed(c, doc, t, depth, DecodeNumber(c, doc, t), ms)
    else AddErrorAndRecover(c, doc, t, MissingBraceOrName, ObjectEnd, ObjectValue(ms), [])
  }

  function NameOf(c: Config, v: Value): Text {
    if v.StringValue? then v.s else NumberText(c, v)
  }

  /** The rest of one round of readObject, once the name token `t` is decoded. */
  function ParseNamed(c: Config, doc: Text, t: Token, depth: nat, decoded: Decoded, ms: seq<Member>): (p: Parsed)
    requires t.start < t.end <= |doc|
    ensures t.end <= p.pos <= |doc|
    ensures p.outcome == Success ==> p.errors == []
    ensures p.outcome == Failed ==> p.errors != []
    decreases |doc| - t.end, 5
  {
    match decoded
    case Rejected(message) =>
      AddErrorAndRecover(c, doc, t, message, ObjectEnd, ObjectValue(ms), [])
    case Value(v) =>
      var name := NameOf(c, v);
      if |name| >= KEY_LIMIT then Threw(t.end)
      else if c.features.rejectDupKeys && HasKey(ms, name) then
        AddErrorAndRecover(c, doc, t, DuplicateKey, ObjectEnd, ObjectValue(ms), [])
      else ParseMember(c, doc, t.end, depth, name, ms)
  }

  /** From behind the name: the colon, the value, and what must follow it. */
  function ParseMember(c: Config, doc: Text, pos: nat, depth: nat, name: Text, ms: seq<Member>): (p: Parsed)
    requires pos <= |doc|
    ensures pos <= p.pos <= |doc|
    ensures p.outcome == Success ==> p.errors == []
    ensures p.outcome == Failed ==> p.errors != []
    decreases |doc| - pos, 4
  {
    var colon := ReadToken(c.features, doc, pos);
    if colon.kind != MemberSeparator then
      AddErrorAndRecover(c, doc, colon, MissingColon, ObjectEnd, ObjectValue(ms), [])
    else
      var r := ParseValue(c, doc, colon.end, depth + 1, ValueOf(ms, name));
      AfterMember(c, doc, depth, name, Put(ms, name, r.val), r)
  }

  /** What readObject does once the member `name` has been read with result `r`. */
  function AfterMember(c: Config, doc: Text, depth: nat, name: Text, ms: seq<Member>, r: Parsed): (p: Parsed)
    requires r.pos <= |doc|
    requires r.outcome == Failed ==> r.errors != []
    ensures r.pos <= p.pos <= |doc|
    ensures p.outcome == Success ==> p.errors == []
    ensures p.outcome == Failed ==> p.errors != []
    decreases |doc| - r.pos, 2
  {
    if r.outcome == Thrown then r
    else if r.outcome == Failed then
      Parsed(Failed, Recover(c.features, doc, r.pos, ObjectEnd), ObjectValue(ms), r.errors)
    else
      var comma := ReadToken(c.features, doc, r.pos);
      if comma.kind != ObjectEnd && comma.kind != ArraySeparator && comma.kind != CommentToken then
        AddErrorAndRecover(c, doc, comma, MissingCommaOrBrace, ObjectEnd, ObjectValue(ms), [])
      else
        var last := if comma.kind == CommentToken then NonComment(c.features, doc, comma.end) else comma;
        if last.kind == ObjectEnd then Parsed(Success, last.end, ObjectValue(ms), [])
        else ParseMembers(c, doc, last.end, depth, name == [], ms)
  }

  lemma MembersUnfold(c: Config, doc: Text, pos: nat, depth: nat, unnamed: bool, ms: seq<Member>)
    requires pos <= |doc|
    ensures var t := NonComment(c.features, doc, pos);
      ParseMembers(c, doc, pos, depth, unnamed, ms) ==
        if t.kind == ObjectEnd && (unnamed || c.features.allowTrailingCommas) then
          Parsed(Success, t.end, ObjectValue(ms), [])
        else if t.kind == StringToken then ParseNamed(c, doc, t, depth, DecodeString(doc, t), ms)
        else if t.kind == NumberToken && c.features.allowNumericKeys then
          ParseNamed(c, doc, t, depth, DecodeNumber(c, doc, t), ms)
        else AddErrorAndRecover(c, doc, t, MissingBraceOrName, ObjectEnd, ObjectValue(ms), [])
  {
  }

  lemma RejectedName(c: Config, doc: Text, t: Token, depth: nat, decoded: Decoded, ms: seq<Member>)
    requires t.start < t.end <= |doc| && decoded.Rejected?
    ensures ParseNamed(c, doc, t, depth, decoded, ms)
      == AddErrorAndRecover(c, doc, t, decoded.message, ObjectEnd, ObjectValue(ms), [])
  {
  }

  lemma MemberUnfold(c: Config, doc: Text, pos: nat, depth: nat, name: Text, ms: seq<Member>)
    requires pos <= |doc|
    ensures var colon := ReadToken(c.features, doc, pos);
      ParseMember(c, doc, pos, depth, name, ms) ==
        if colon.kind != MemberSeparator then
          AddErrorAndRecover(c, doc, colon, MissingColon, ObjectEnd, ObjectValue(ms), [])
        else
          var r := ParseValue(c, doc, colon.end, depth + 1, ValueOf(ms, name));
          AfterMember(c, doc, depth, name, Put(ms, name, r.val), r)
  {
  }

  lemma AfterUnread(c: Config, doc: Text, depth: nat, name: Text, ms: seq<Member>, r: Parsed)
    requires r.pos <= |doc|
    requires r.outcome == Failed ==> r.errors != []
    ensures r.outcome == Thrown ==> AfterMember(c, doc, depth, name, ms, r) == r
    ensures r.outcome == Failed ==>
      AfterMember(c, doc, depth, name, ms, r)
        == Parsed(Failed, Recover(c.features, doc, r.pos, ObjectEnd), ObjectValue(ms), r.errors)
  {
  }

  /** The loop of readArray, `slots` being read already. */
  function ParseElements(c: Config, doc: Text, pos: nat, depth: nat, slots: seq<Slot>): (p: Parsed)
    requires pos <= |doc|
    ensures pos <= p.pos <= |doc|
    ensures p.outcome == Success ==> p.errors == []
    ensures p.outcome == Failed ==> p.errors != []
    decreases |doc| - pos, 3
  {
    var start := SkipSpaces(doc, pos);
    if start < |doc| && doc[start] == 93 && ArrayMayClose(c.features, slots) then
      Parsed(Success, start + 1, ArrayValue(slots), [])
    else
      var r := ParseValue(c, doc, start, depth + 1, NullValue);
      AfterElement(c, doc, depth, slots + [Item(r.val)], r)
  }

  /** What readArray does once an element has been read with result `r`. */
  function AfterElement(c: Config, doc: Text, depth: nat, slots: seq<Slot>, r: Parsed): (p: Parsed)
    requires r.pos <= |doc|
    requires r.outcome == Failed ==> r.errors != []
    ensures r.pos <= p.pos <= |doc|
    ensures p.outcome == Success ==> p.errors == []
    ensures p.outcome == Failed ==> p.errors != []
    decreases |doc| - r.pos, 2
  {
    if r.outcome == Thrown then r
    else if r.outcome == Failed then
      Parsed(Failed, Recover(c.features, doc, r.pos, ArrayEnd), ArrayValue(slots), r.errors)
    else
      var t := NonComment(c.features, doc, r.pos);
      if t.kind == ArrayEnd then Parsed(Success, t.end, ArrayValue(slots), [])
      else if t.kind == ArraySeparator then ParseElements(c, doc, t.end, depth, slots)
      else AddErrorAndRecover(c, doc, t, MissingCommaOrBracket, ArrayEnd, ArrayValue(slots), [])
  }

  /** Whether a closing bracket in place of an element ends the array: it is empty, or
      this was a trailing comma. */
  predicate ArrayMayClose(f: Features, slots: seq<Slot>) {
    slots == [] || (f.allowTrailingCommas && !f.allowDroppedNullPlaceholders)
  }

  const BOM: Text := [0xEF, 0xBB, 0xBF]

  function DocumentStart(f: Features, doc: Text): (r: nat)
    ensures r <= |doc|
  {
    if f.skipBom && HasAt(doc, 0, BOM) then 3 else 0
  }

  /** parse: the whole document into a root that holds `prior` before. */
  function ParseDocument(c: Config, doc: Text, prior: Value): (p: Parsed)
    ensures p.outcome == Success ==> p.errors == []
    ensures p.outcome == Failed ==> p.errors != []
  {
    var r := ParseValue(c, doc, DocumentStart(c.features, doc), 1, prior);
    if r.outcome == Thrown then r else AfterDocument(c, doc, r)
  }

  /** The checks of parse behind the root value, read with result `r`. */
  function AfterDocument(c: Config, doc: Text, r: Parsed): (p: Parsed)
    requires r.pos <= |doc| && r.outcome != Thrown
    requires r.outcome == Failed ==> r.errors != []
    requires r.outcome == Success ==> r.errors == []
    ensures p.outcome == Success ==> p.errors == []
    ensures p.outcome == Failed ==> p.errors != []
  {
    var t := SkipCommentTokens(c.features, doc, r.pos);
    if c.features.failIfExtra && t.kind != EndOfStream then
      Parsed(Failed, t.end, r.val, r.errors + [ErrorInfo(t.start, t.end, ExtraAfterValue)])
    else if c.features.strictRoot && !r.val.ArrayValue? && !r.val.ObjectValue? then
      Parsed(Failed, t.end, r.val, r.errors + [ErrorInfo(0, |doc|, RootMustBeContainer)])
    else Parsed(r.outcome, t.end, r.val, r.errors)
  }

  lemma AfterUnreadElement(c: Config, doc: Text, depth: nat, slots: seq<Slot>, r: Parsed)
    requires r.pos <= |doc|
    requires r.outcome == Failed ==> r.errors != []
    ensures r.outcome == Thrown ==> AfterElement(c, doc, depth, slots, r) == r
    ensures r.outcome == Failed ==>
      AfterElement(c, doc, depth, slots, r)
        == Parsed(Failed, Recover(c.features, doc, r.pos, ArrayEnd), ArrayValue(slots), r.errors)
  {
  }

  lemma ElementsUnfold(c: Config, doc: Text, pos: nat, depth: nat, slots: seq<Slot>)
    requires pos <= |doc|
    ensures var start := SkipSpaces(doc, pos);
      ParseElements(c, doc, pos, depth, slots) ==
        if start < |doc| && doc[start] == 93
           && (slots == [] || (c.features.allowTrailingCommas && !c.features.allowDroppedNullPlaceholders)) then
          Parsed(Success, start + 1, ArrayValue(slots), [])
        else
          var r := ParseValue(c, doc, start, depth + 1, NullValue);
          AfterElement(c, doc, depth, slots + [Item(r.val)], r)
  {
  }
}
