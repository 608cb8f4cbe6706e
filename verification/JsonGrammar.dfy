/** The language of the reader as syntax trees: the JSON grammar with any whitespace and any
    spelling, and every extension a feature can allow; and what each tree denotes. Bytes are
    written as numbers throughout, so that nothing here rests on the reader's own tests. */
module JsonGrammar {
  import opened Bytes
  import opened JsonErrors
  import opened JsonParser
  import opened JsonValue
  import JsonNumber
  import JsonString
  import Utf8

  // ----- whitespace and comments -----

  /** RFC 8259 section 2: space, tab, line feed and carriage return. */
  predicate White(b: Byte) { b == 32 || b == 9 || b == 10 || b == 13 }

  /** One space, a comment in stars, or a comment up to the end of its line. */
  datatype Piece = Space(b: Byte) | Block(body: Text) | Line(body: Text, ending: Text)

  /** What stands between tokens. */
  type Filler = seq<Piece>

  function PieceText(p: Piece): Text {
    match p
    case Space(b) => [b]
    case Block(body) => [47, 42] + (body + [42, 47])
    case Line(body, ending) => [47, 47] + (body + ending)
  }

  function FillerText(ps: Filler): Text {
    if ps == [] then [] else PieceText(ps[0]) + FillerText(ps[1..])
  }

  /** A comment in stars ends at the first star before a slash; one on a line has no line
      break inside and ends with one. */
  predicate PieceWellFormed(p: Piece) {
    match p
    case Space(b) => White(b)
    case Block(body) => forall k :: 0 <= k < |body| ==> !(body[k] == 42 && (body + [42])[k + 1] == 47)
    case Line(body, ending) =>
      && (forall k :: 0 <= k < |body| ==> body[k] != 10 && body[k] != 13)
      && (ending == [10] || ending == [13] || ending == [13, 10])
  }

  /** A line feed behind a carriage return belongs to the same line break. */
  predicate FillerWellFormed(ps: Filler) {
    forall k :: 0 <= k < |ps| ==>
      PieceWellFormed(ps[k]) && (ps[k].Line? && ps[k].ending == [13] && k + 1 < |ps| ==> ps[k + 1] != Space(10))
  }

  predicate HasComment(ps: Filler) {
    exists k :: 0 <= k < |ps| && !ps[k].Space?
  }

  /** Whitespace only. */
  predicate Blank(ps: Filler) { FillerWellFormed(ps) && !HasComment(ps) }

  // ----- strings and numbers -----

  /** A character of a string: a byte as it stands, a two-character escape, or four hex
      digits behind a backslash and u (RFC 8259 section 7). */
  datatype Char = Raw(b: Byte) | Short(c: Byte) | Hex(h: Text)

  /** A string between double quotes, or single ones as an extension. Between single quotes a
      double quote ends the text early; what follows it is `tail`. */
  datatype Quotation = Quotation(single: bool, chars: seq<Char>, tail: Text)

  datatype Sign = NoSign | MinusSign | PlusSign

  /** A number in its parts (RFC 8259 section 6); `fraction` starts with the point and
      `exponent` with the letter, or they are empty. */
  datatype Numeral = Numeral(sign: Sign, digits: Text, fraction: Text, exponent: Text)

  predicate HexByte(b: Byte) { 48 <= b <= 57 || 65 <= b <= 70 || 97 <= b <= 102 }

  function HexByteValue(b: Byte): (n: nat) {
    if 48 <= b <= 57 then b - 48
    else if 65 <= b <= 70 then b - 55
    else if 97 <= b <= 102 then b - 87
    else 0
  }

  /** Any byte but the double quote and the backslash may stand for itself: the reader asks for
      less than the grammar, which also excludes control characters and malformed UTF-8. */
  predicate CharWellFormed(ch: Char) {
    match ch
    case Raw(b) => b != 34 && b != 92
    case Short(c) => c != 117
    case Hex(h) => |h| == 4 && forall k :: 0 <= k < 4 ==> HexByte(h[k])
  }

  predicate CharsWellFormed(chars: seq<Char>) {
    forall k :: 0 <= k < |chars| ==> CharWellFormed(chars[k])
  }

  function Mark(q: Quotation): Byte { if q.single then 39 else 34 }

  /** A text that the scan for the closing quote passes over: no bare quote, and no backslash
      without a byte behind it. */
  predicate Closed(t: Text, quote: Byte) {
    t == []
    || (t[0] != quote && t[0] != 92 && Closed(t[1..], quote))
    || (t[0] == 92 && |t| >= 2 && Closed(t[2..], quote))
  }

  predicate QuotationWellFormed(q: Quotation) {
    && CharsWellFormed(q.chars)
    && (forall k :: 0 <= k < |q.chars| ==> q.chars[k] != Raw(Mark(q)))
    && (q.tail != [] ==> q.single && q.tail[0] == 34 && Closed(q.tail, 39))
  }

  predicate AreDigits(t: Text) { forall k :: 0 <= k < |t| ==> 48 <= t[k] <= 57 }

  predicate FractionWellFormed(t: Text) { t == [] || (t[0] == 46 && AreDigits(t[1..])) }

  predicate ExponentWellFormed(t: Text) {
    t == [] || ((t[0] == 101 || t[0] == 69) && AreDigits(t[if |t| > 1 && (t[1] == 43 || t[1] == 45) then 2 else 1..]))
  }

  /** More than the grammar: a sign alone, a plus sign, leading zeros, and parts without digits
      are numbers to the reader. */
  predicate NumeralWellFormed(n: Numeral) {
    && AreDigits(n.digits) && (n.digits == [] ==> n.sign != NoSign)
    && FractionWellFormed(n.fraction) && ExponentWellFormed(n.exponent)
  }

  // ----- trees -----

  datatype Special = NotANumberWord | InfinityWord | PlusInfinityWord | MinusInfinityWord

  datatype Name = Quoted(q: Quotation) | Numeric(n: Numeral)

  /** `Dropped` is a null of which nothing is written. */
  datatype Syntax =
    | NullSyntax
    | BoolSyntax(b: bool)
    | NumberSyntax(n: Numeral)
    | StringSyntax(q: Quotation)
    | SpecialSyntax(s: Special)
    | Dropped
    | ArraySyntax(elements: seq<Element>, blank: Filler)
    | ObjectSyntax(members: seq<Entry>, trailing: bool, blank: Filler)

  /** An element or a member with what stands around its parts; `comma` is what separates the
      member from the next. */
  datatype Element = Element(before: Filler, value: Syntax, behind: Filler)

  datatype Entry = Entry(before: Filler, name: Name, afterName: Filler,
                         beforeValue: Filler, value: Syntax, behind: Filler, comma: Text)

  predicate NameWellFormed(name: Name) {
    match name
    case Quoted(q) => QuotationWellFormed(q)
    case Numeric(n) => NumeralWellFormed(n)
  }

  /** The null of which nothing is written has no blanks of its own behind it. */
  predicate ElementsWellFormed(elements: seq<Element>) {
    forall k :: 0 <= k < |elements| ==>
      && FillerWellFormed(elements[k].before) && Grammatical(elements[k].value)
      && FillerWellFormed(elements[k].behind) && (elements[k].value.Dropped? ==> elements[k].behind == [])
  }

  /** Behind a member that a comment follows, the reader takes any token for the separator. */
  predicate Separates(comma: Text, behind: Filler) {
    comma == [44] || (comma != [] && HasComment(behind))
  }

  predicate MembersWellFormed(members: seq<Entry>) {
    forall k :: 0 <= k < |members| ==>
      && FillerWellFormed(members[k].before) && NameWellFormed(members[k].name) && Blank(members[k].afterName)
      && FillerWellFormed(members[k].beforeValue) && Grammatical(members[k].value)
      && FillerWellFormed(members[k].behind) && (members[k].value.Dropped? ==> members[k].behind == [])
      && Separates(members[k].comma, members[k].behind)
  }

  /** An array without elements has its own form, so a single null of which nothing is written
      needs a comment to be one. */
  predicate Grammatical(t: Syntax) {
    match t
    case NumberSyntax(n) => NumeralWellFormed(n)
    case StringSyntax(q) => QuotationWellFormed(q)
    case ArraySyntax(elements, blank) =>
      && Blank(blank) && (elements != [] ==> blank == [])
      && !(|elements| == 1 && Omitted(elements[0]))
      && (forall k :: 0 <= k < |elements| ==>
            && FillerWellFormed(elements[k].before) && Grammatical(elements[k].value)
            && FillerWellFormed(elements[k].behind) && (elements[k].value.Dropped? ==> elements[k].behind == []))
    case ObjectSyntax(members, trailing, blank) =>
      && FillerWellFormed(blank) && (trailing ==> members != []) && (!trailing && members != [] ==> blank == [])
      && (forall k :: 0 <= k < |members| ==>
            && FillerWellFormed(members[k].before) && NameWellFormed(members[k].name) && Blank(members[k].afterName)
            && FillerWellFormed(members[k].beforeValue) && Grammatical(members[k].value)
            && FillerWellFormed(members[k].behind) && (members[k].value.Dropped? ==> members[k].behind == [])
            && Separates(members[k].comma, members[k].behind))
    case _ => true
  }

  /** Nothing but blanks where an element should be. */
  predicate Omitted(e: Element) { e.value.Dropped? && !HasComment(e.before) }

  /** Members are separated by commas only. */
  predicate Commas(t: Syntax) {
    match t
    case ArraySyntax(elements, _) => forall k :: 0 <= k < |elements| ==> Commas(elements[k].value)
    case ObjectSyntax(members, _, _) =>
      forall k :: 0 <= k < |members| ==> members[k].comma == [44] && Commas(members[k].value)
    case _ => true
  }

  // ----- texts -----

  function CharText(ch: Char): Text {
    match ch
    case Raw(b) => [b]
    case Short(c) => [92, c]
    case Hex(h) => [92, 117] + h
  }

  function CharsText(chars: seq<Char>): Text {
    if chars == [] then [] else CharText(chars[0]) + CharsText(chars[1..])
  }

  function QuotationText(q: Quotation): Text {
    [Mark(q)] + ((CharsText(q.chars) + q.tail) + [Mark(q)])
  }

  function SignText(s: Sign): Text {
    match s
    case NoSign => []
    case MinusSign => [45]
    case PlusSign => [43]
  }

  function NumeralText(n: Numeral): Text {
    SignText(n.sign) + (n.digits + (n.fraction + n.exponent))
  }

  function NameText(name: Name): Text {
    match name
    case Quoted(q) => QuotationText(q)
    case Numeric(n) => NumeralText(n)
  }

  /** NaN, Infinity, +Infinity and -Infinity. */
  function SpecialText(s: Special): Text {
    match s
    case NotANumberWord => [78, 97, 78]
    case InfinityWord => [73, 110, 102, 105, 110, 105, 116, 121]
    case PlusInfinityWord => [43, 73, 110, 102, 105, 110, 105, 116, 121]
    case MinusInfinityWord => [45, 73, 110, 102, 105, 110, 105, 116, 121]
  }

  function SyntaxText(t: Syntax): Text
    decreases t, 0
  {
    match t
    case NullSyntax => [110, 117, 108, 108]
    case BoolSyntax(b) => if b then [116, 114, 117, 101] else [102, 97, 108, 115, 101]
    case NumberSyntax(n) => NumeralText(n)
    case StringSyntax(q) => QuotationText(q)
    case SpecialSyntax(s) => SpecialText(s)
    case Dropped => []
    case ArraySyntax(elements, blank) =>
      [91] + if elements == [] then FillerText(blank) + [93] else ElementsText(elements)
    case ObjectSyntax(members, trailing, blank) => [123] + MembersText(members, trailing, blank)
  }

  /** Elements up to and including the closing bracket. */
  function ElementsText(elements: seq<Element>): Text
    requires elements != []
    decreases elements, 1
  {
    var e, rest := elements[0], elements[1..];
    FillerText(e.before) + (SyntaxText(e.value)
      + (FillerText(e.behind) + if rest == [] then [93] else [44] + ElementsText(rest)))
  }

  /** Members up to and including the closing brace; `trailing` says that a separator stands
      behind the last one as well. */
  function MembersText(members: seq<Entry>, trailing: bool, blank: Filler): Text
    decreases members, 1
  {
    if members == [] then FillerText(blank) + [125]
    else
      var m, rest := members[0], members[1..];
      FillerText(m.before) + (NameText(m.name) + (FillerText(m.afterName) + ([58] + (FillerText(m.beforeValue)
        + (SyntaxText(m.value) + (FillerText(m.behind)
          + if rest == [] && !trailing then [125] else m.comma + MembersText(rest, trailing, blank)))))))
  }

  // ----- what the reader makes of a tree -----

  /** The byte a two-character escape denotes (RFC 8259 section 7), -1 when there is none. */
  function ShortMeaning(c: Byte): (b: int)
    ensures -1 <= b < 256
  {
    match c
    case 34 => 34
    case 47 => 47
    case 92 => 92
    case 98 => 8
    case 102 => 12
    case 110 => 10
    case 114 => 13
    case 116 => 9
    case _ => -1
  }

  function HexNumber(h: Text): (n: nat) {
    if |h| != 4 then 0
    else HexByteValue(h[0]) * 4096 + HexByteValue(h[1]) * 256 + HexByteValue(h[2]) * 16 + HexByteValue(h[3])
  }

  /** An escape of the first half of a surrogate pair. */
  predicate IsHigh(ch: Char) { ch.Hex? && 0xD800 <= HexNumber(ch.h) <= 0xDBFF }

  /** RFC 2781 section 2.2; the reader does not ask whether the second half is one. */
  function PairMeaning(high: Text, low: Text): Text {
    var h: int := HexNumber(high);
    Utf8.Encode(if h < 0xD800 then 0 else 0x10000 + (h - 0xD800) * 1024 + HexNumber(low) % 1024)
  }

  function Joined(head: Text, tail: JsonString.Decoded): JsonString.Decoded {
    match tail
    case Plain(t) => JsonString.Plain(head + t)
    case Malformed(_) => tail
  }

  /** The text that characters denote, with `more` bytes between them and the closing quote. A
      high surrogate joins with the escape behind it; alone it has no meaning. */
  function Characters(chars: seq<Char>, more: nat): (r: JsonString.Decoded) {
    if chars == [] then JsonString.Plain([])
    else match chars[0]
      case Raw(b) => Joined([b], Characters(chars[1..], more))
      case Short(c) =>
        if ShortMeaning(c) < 0 then JsonString.Malformed(BadEscape)
        else Joined([ShortMeaning(c)], Characters(chars[1..], more))
      case Hex(h) =>
        if !IsHigh(chars[0]) then Joined(Utf8.Encode(HexNumber(h)), Characters(chars[1..], more))
        else if |CharsText(chars[1..])| + more < 6 then JsonString.Malformed(SixMoreExpected)
        else if |chars| == 1 || !chars[1].Hex? then JsonString.Malformed(SecondHalfExpected)
        else Joined(PairMeaning(h, chars[1].h), Characters(chars[2..], more))
  }

  function QuotationMeaning(q: Quotation): JsonString.Decoded { Characters(q.chars, |q.tail|) }

  function Decimal(t: Text): (n: nat) {
    if t == [] then 0
    else Decimal(t[..|t| - 1]) * 10 + if t[|t| - 1] >= 48 then t[|t| - 1] - 48 else 0
  }

  /** An integer in 64-bit range is that integer, signed if it can be; everything else is
      floating-point text, and refused if it is none. */
  function NumberMeaning(c: Config, n: Numeral): Decoded {
    var m: int := Decimal(n.digits);
    if n.sign.PlusSign? || n.fraction != [] || n.exponent != []
       || m > (if n.sign.MinusSign? then 0x8000_0000_0000_0000 else 0xFFFF_FFFF_FFFF_FFFF) then
      match c.doubles.parse(NumeralText(n))
      case Some(d) => Decoded.Value(RealValue(d))
      case None => Rejected(NotANumber)
    else if n.sign.MinusSign? then Decoded.Value(IntValue(-m))
    else if m < 0x8000_0000_0000_0000 then Decoded.Value(IntValue(m))
    else Decoded.Value(UIntValue(m))
  }

  function SpecialMeaning(s: Special): Double {
    match s
    case NotANumberWord => NaN
    case MinusInfinityWord => NegativeInfinity
    case _ => PositiveInfinity
  }

  /** A value, the first error that is recorded, or an exception. */
  datatype Reading = Gives(v: Value) | Refused(message: Message) | Throws

  function Decided(d: Decoded): Reading {
    match d
    case Value(v) => Gives(v)
    case Rejected(message) => Refused(message)
  }

  function ReadQuotation(q: Quotation): Reading {
    match QuotationMeaning(q)
    case Plain(s) => Gives(StringValue(s))
    case Malformed(message) => Refused(message)
  }

  /** The text of a number once it is printed again. */
  function Reprinted(c: Config, v: Value): Text {
    match v
    case IntValue(i) => (if i < 0 then [45] else []) + JsonNumber.Digits(if i < 0 then -i else i)
    case UIntValue(u) => JsonNumber.Digits(u)
    case RealValue(d) => c.doubles.show(d)
    case _ => []
  }

  /** The text a name denotes; numbers are names only as an extension, and are printed again. */
  function ReadName(c: Config, name: Name): JsonString.Decoded {
    match name
    case Quoted(q) =>
      if q.single && !c.features.allowSingleQuotes then JsonString.Malformed(MissingBraceOrName)
      else QuotationMeaning(q)
    case Numeric(n) =>
      if !c.features.allowNumericKeys then JsonString.Malformed(MissingBraceOrName)
      else match NumberMeaning(c, n)
        case Value(v) => JsonString.Plain(Reprinted(c, v))
        case Rejected(message) => JsonString.Malformed(message)
  }

  /** Reading a tree with `levels` levels of nesting left. What a feature does not allow is no
      value. */
  function Read(c: Config, t: Syntax, levels: int): (r: Reading)
    decreases t, 0
  {
    if levels <= 0 then Throws
    else match t
      case NullSyntax => Gives(NullValue)
      case BoolSyntax(b) => Gives(BoolValue(b))
      case NumberSyntax(n) => Decided(NumberMeaning(c, n))
      case StringSyntax(q) =>
        if q.single && !c.features.allowSingleQuotes then Refused(ValueExpected) else ReadQuotation(q)
      case SpecialSyntax(s) =>
        if c.features.allowSpecialFloats then Gives(RealValue(SpecialMeaning(s))) else Refused(ValueExpected)
      case Dropped =>
        if c.features.allowDroppedNullPlaceholders then Gives(NullValue) else Refused(ValueExpected)
      case ArraySyntax(elements, _) => ReadElements(c, elements, levels - 1, [])
      case ObjectSyntax(members, trailing, _) => ReadMembers(c, members, trailing, levels - 1, true, [])
  }

  /** The same behind whitespace, or behind comments where they are allowed. */
  function ReadBehind(c: Config, before: Filler, t: Syntax, levels: int): (r: Reading)
    decreases t, 1
  {
    if levels > 0 && HasComment(before) && !c.features.allowComments then Refused(ValueExpected)
    else Read(c, t, levels)
  }

  /** Whether the array ends where an element is left out behind a comma. */
  predicate EndsArray(c: Config, elements: seq<Element>, done: seq<Slot>)
    requires elements != []
  {
    && |elements| == 1 && Omitted(elements[0]) && done != []
    && c.features.allowTrailingCommas && !c.features.allowDroppedNullPlaceholders
  }

  function ReadElements(c: Config, elements: seq<Element>, levels: int, done: seq<Slot>): (r: Reading)
    decreases elements, 2
  {
    if elements == [] || EndsArray(c, elements, done) then Gives(ArrayValue(done))
    else match ReadBehind(c, elements[0].before, elements[0].value, levels)
      case Gives(v) => ReadElements(c, elements[1..], levels, done + [Item(v)])
      case Refused(message) => Refused(message)
      case Throws => Throws
  }

  /** Members are read in order; the last of several with one name stays, or the second is
      refused. A trailing comma is accepted behind an unnamed member in any case. */
  function ReadMembers(c: Config, members: seq<Entry>, trailing: bool, levels: int, unnamed: bool, ms: seq<Member>):
    (r: Reading)
    decreases members, 3
  {
    if members == [] then
      if trailing && !unnamed && !c.features.allowTrailingCommas then Refused(MissingBraceOrName)
      else Gives(ObjectValue(ms))
    else match ReadName(c, members[0].name)
      case Malformed(message) => Refused(message)
      case Plain(name) =>
        if |name| >= 0x4000_0000 then Throws
        else if c.features.rejectDupKeys && (exists k :: 0 <= k < |ms| && ms[k].key == name) then Refused(DuplicateKey)
        else ReadNamed(c, members, trailing, levels, name, ms)
  }

  /** The same once the first name is read. */
  function ReadNamed(c: Config, members: seq<Entry>, trailing: bool, levels: int, name: Text, ms: seq<Member>):
    (r: Reading)
    requires members != []
    decreases members, 2
  {
    match ReadBehind(c, members[0].beforeValue, members[0].value, levels)
    case Gives(v) => ReadMembers(c, members[1..], trailing, levels, name == [], Put(ms, name, v))
    case Refused(message) => Refused(message)
    case Throws => Throws
  }

  /** What a read method leaves behind when it reads something that ends at `end`. */
  predicate Reads(p: Parsed, r: Reading, end: nat) {
    match r
    case Gives(v) => p == Parsed(Success, end, v, [])
    case Refused(message) => FailedWith(p, message)
    case Throws => p.outcome == Thrown
  }

  predicate FailedWith(p: Parsed, message: Message) {
    p.outcome == Failed && p.errors != [] && p.errors[0].message == message
  }

  /** The nesting left at a depth of the node stack. */
  function Levels(c: Config, depth: nat): int { c.features.stackLimit + 1 - depth }

  /** What can follow a value. */
  predicate Delimited(doc: Text, pos: nat) {
    pos == |doc| || (pos < |doc| && (White(doc[pos]) || doc[pos] in {0, 44, 47, 58, 93, 125}))
  }

  // ----- documents -----

  /** A comment that the end of the document cuts short: one up to the end of its line, or one
      in stars that is taken for complete because the last byte is a slash. */
  predicate CutShort(t: Text) {
    && |t| >= 2 && t[0] == 47
    && (|| (t[1] == 47 && forall k :: 2 <= k < |t| ==> t[k] != 10 && t[k] != 13)
        || (t[1] == 42 && |t| > 2 && t[|t| - 1] == 47
            && forall k :: 2 <= k < |t| - 1 ==> !(t[k] == 42 && t[k + 1] == 47)))
  }

  /** What may stand behind the root when nothing extra is allowed: whitespace, comments where
      they are allowed, and then nothing, or a zero byte with anything behind it. */
  predicate NothingExtra(c: Config, behind: Filler, tail: Text) {
    && (HasComment(behind) || CutShort(tail) ==> c.features.allowComments)
    && (tail == [] || tail[0] == 0 || CutShort(tail))
  }

  function DocumentText(mark: Text, before: Filler, t: Syntax, behind: Filler, tail: Text): Text {
    mark + (FillerText(before) + (SyntaxText(t) + (FillerText(behind) + tail)))
  }
}
