/** Reading what FastWriter wrote, for every feature set and every value whose reals survive as
    text: the written text is the compact text of a tree of the grammar, and the tree denotes
    the canonical value. */
module JsonRoundTrip {
  import opened Bytes
  import opened JsonAccepts
  import opened JsonErrors
  import opened JsonGrammar
  import opened JsonNumber
  import opened JsonParser
  import opened JsonTokens
  import opened JsonValue
  import opened JsonWriter
  import JsonString
  import Utf8

  // ----- the tree of a written value -----

  /** The characters the quoting loop writes for the one at `i`. */
  function StepChars(s: Text, i: nat): seq<Char>
    requires i < |s|
  {
    if JsonString.ShortEscape(s[i]) != 0 then [Short(JsonString.ShortEscape(s[i]))]
    else CodePointChars(Utf8.Decode(s, i).0)
  }

  function CodePointChars(cp: nat): seq<Char>
    requires cp < 0x200000
  {
    if 0x20 <= cp < 0x80 then [Raw(cp)]
    else if cp < 0x10000 then [Hex(JsonString.Hex16(cp))]
    else [Hex(JsonString.Hex16(Utf8.HighSurrogate(cp))), Hex(JsonString.Hex16(Utf8.LowSurrogate(cp)))]
  }

  function CharsFrom(s: Text, i: nat): seq<Char>
    requires i <= |s|
    decreases |s| - i
  {
    if i == |s| then [] else StepChars(s, i) + CharsFrom(s, i + JsonString.QuoteStep(s, i, false).1)
  }

  function CharsOf(s: Text): seq<Char> { CharsFrom(s, 0) }

  function QuotationOf(s: Text): Quotation { Quotation(false, CharsOf(s), []) }

  function NumeralOf(n: int): Numeral {
    Numeral(if n < 0 then MinusSign else NoSign, Digits(if n < 0 then -n else n), [], [])
  }

  /** The printed text of a real is a number that the reader converts back to it. */
  ghost predicate Shown(c: Config, st: Style, d: Double) {
    exists n :: ShownAs(c, st, d, n)
  }

  ghost predicate ShownAs(c: Config, st: Style, d: Double, n: Numeral) {
    && NumeralWellFormed(n) && NumeralText(n) == st.showDouble(d)
    && NumberMeaning(c, n) == Decoded.Value(RealValue(d))
  }

  ghost predicate RealsShown(c: Config, st: Style, v: Value) {
    match v
    case RealValue(d) => Shown(c, st, d)
    case ArrayValue(slots) => forall k :: 0 <= k < |slots| && slots[k].Item? ==> RealsShown(c, st, slots[k].v)
    case ObjectValue(members) => forall k :: 0 <= k < |members| ==> RealsShown(c, st, members[k].val)
    case _ => true
  }

  /** Values without reals are an instance. */
  lemma {:induction false} NoRealsShown(c: Config, st: Style, v: Value)
    requires NoReals(v)
    ensures RealsShown(c, st, v)
  {
    match v
    case ArrayValue(slots) =>
      forall k | 0 <= k < |slots| && slots[k].Item?
        ensures RealsShown(c, st, slots[k].v)
      {
        NoRealsShown(c, st, slots[k].v);
      }
    case ObjectValue(members) =>
      forall k | 0 <= k < |members|
        ensures RealsShown(c, st, members[k].val)
      {
        NoRealsShown(c, st, members[k].val);
      }
    case _ =>
  }

  /** The tree whose text is written for `v`. */
  ghost function TreeOf(c: Config, st: Style, v: Value): Syntax
    decreases v, 0
  {
    match v
    case NullValue => NullSyntax
    case IntValue(i) => NumberSyntax(NumeralOf(i))
    case UIntValue(u) => NumberSyntax(NumeralOf(u))
    case RealValue(d) => if n :| ShownAs(c, st, d, n) then NumberSyntax(n) else NullSyntax
    case StringValue(s) => StringSyntax(QuotationOf(s))
    case BoolValue(b) => BoolSyntax(b)
    case ArrayValue(slots) => ArraySyntax(ElementsOf(c, st, slots), [])
    case ObjectValue(members) => ObjectSyntax(EntriesOf(c, st, members), false, [])
  }

  ghost function SlotTree(c: Config, st: Style, s: Slot): Syntax
    decreases s
  {
    match s
    case Hole => NullSyntax
    case Item(v) => TreeOf(c, st, v)
  }

  ghost function ElementsOf(c: Config, st: Style, slots: seq<Slot>): seq<Element>
    decreases slots, 1
  {
    if slots == [] then [] else [Element([], SlotTree(c, st, slots[0]), [])] + ElementsOf(c, st, slots[1..])
  }

  /** What a style for YAML puts behind a colon. */
  function BehindColon(st: Style): Filler { if st.yamlCompatible then [Space(32)] else [] }

  ghost function EntryOf(c: Config, st: Style, m: Member): Entry
    decreases m
  {
    Entry([], Name.Quoted(QuotationOf(m.key)), [], BehindColon(st), TreeOf(c, st, m.val), [], [44])
  }

  ghost function EntriesOf(c: Config, st: Style, members: seq<Member>): seq<Entry>
    decreases members, 1
  {
    if members == [] then [] else [EntryOf(c, st, members[0])] + EntriesOf(c, st, members[1..])
  }

  // ----- the printed spelling -----

  /** The one way the printer spells a character: printable ASCII as it stands, the seven
      two-character escapes where there is one, and lower-case hex digits for all else. */
  predicate PrintedChar(ch: Char) {
    match ch
    case Raw(b) => 32 <= b < 128
    case Short(c) => c in {34, 92, 98, 102, 110, 114, 116}
    case Hex(h) =>
      && (HexNumber(h) < 32 || HexNumber(h) >= 128) && HexNumber(h) !in {8, 9, 10, 12, 13}
      && |h| == 4 && forall k :: 0 <= k < 4 ==> 48 <= h[k] <= 57 || 97 <= h[k] <= 102
  }

  predicate PrintedQuotation(q: Quotation) {
    !q.single && q.tail == [] && forall k :: 0 <= k < |q.chars| ==> PrintedChar(q.chars[k])
  }

  /** No whitespace, but the space behind a colon for YAML, no comment and no extension. */
  predicate Compact(t: Syntax, yaml: bool) {
    match t
    case StringSyntax(q) => PrintedQuotation(q)
    case ArraySyntax(elements, blank) =>
      blank == [] && forall k :: 0 <= k < |elements| ==>
        elements[k].before == elements[k].behind == [] && Compact(elements[k].value, yaml)
    case ObjectSyntax(members, trailing, blank) =>
      !trailing && blank == [] && forall k :: 0 <= k < |members| ==>
        && members[k].before == members[k].afterName == members[k].behind == [] && members[k].comma == [44]
        && members[k].beforeValue == (if yaml then [Space(32)] else [])
        && members[k].name.Quoted? && PrintedQuotation(members[k].name.q) && Compact(members[k].value, yaml)
    case SpecialSyntax(_) => false
    case Dropped => false
    case _ => true
  }

  // ----- its text is the written text -----

  lemma HexWellFormed(x: nat)
    ensures var h := JsonString.Hex16(x);
      && CharWellFormed(Hex(h)) && CharText(Hex(h)) == JsonString.HexEscape(x)
      && forall k :: 0 <= k < 4 ==> 48 <= h[k] <= 57 || 97 <= h[k] <= 102
  {
  }

  lemma HexIs(x: nat)
    requires x < 0x10000
    ensures HexNumber(JsonString.Hex16(x)) == x
  {
    hide JsonString.HexDigit, HexByteValue;
    DigitIs(x / 4096 % 16);
    DigitIs(x / 256 % 16);
    DigitIs(x / 16 % 16);
    DigitIs(x % 16);
    JsonString.HexSum(x);
  }

  lemma DigitIs(n: nat)
    requires n < 16
    ensures HexByteValue(JsonString.HexDigit(n)) == n
  {
  }

  lemma CodePointText(cp: nat)
    requires cp < 0x200000 && cp != JsonString.QUOTE && cp != JsonString.BACKSLASH
    ensures CharsText(CodePointChars(cp)) == JsonString.EscapeCodePoint(cp)
    ensures CharsWellFormed(CodePointChars(cp))
    ensures cp !in {8, 9, 10, 12, 13} ==>
      forall k :: 0 <= k < |CodePointChars(cp)| ==> PrintedChar(CodePointChars(cp)[k])
  {
    hide JsonString.HexEscape, JsonString.Hex16, CharText, CharsText, HexNumber;
    if 0x20 <= cp < 0x80 {
      SingleChar(Raw(cp));
      RawText(cp);
    } else if cp < 0x10000 {
      HexWellFormed(cp);
      HexIs(cp);
      SingleChar(Hex(JsonString.Hex16(cp)));
    } else {
      var high, low := Utf8.HighSurrogate(cp), Utf8.LowSurrogate(cp);
      HexWellFormed(high);
      HexWellFormed(low);
      HexIs(high);
      HexIs(low);
      SingleChar(Hex(JsonString.Hex16(high)));
      SingleChar(Hex(JsonString.Hex16(low)));
      CharsConcat([Hex(JsonString.Hex16(high))], [Hex(JsonString.Hex16(low))]);
      assert CodePointChars(cp) == [Hex(JsonString.Hex16(high))] + [Hex(JsonString.Hex16(low))];
    }
  }

  lemma RawText(b: Byte)
    ensures CharText(Raw(b)) == [b]
  {
  }

  lemma StepText(s: Text, i: nat)
    requires i < |s|
    ensures CharsText(StepChars(s, i)) == JsonString.QuoteStep(s, i, false).0
    ensures CharsWellFormed(StepChars(s, i))
    ensures forall k :: 0 <= k < |StepChars(s, i)| ==> PrintedChar(StepChars(s, i)[k])
  {
    hide JsonString.EscapeCodePoint, CodePointChars, CharsText;
    if JsonString.ShortEscape(s[i]) != 0 {
      SingleChar(Short(JsonString.ShortEscape(s[i])));
    } else {
      var cp := Utf8.Decode(s, i).0;
      assert cp < 0x80 ==> cp == s[i];
      CodePointText(cp);
    }
  }

  lemma {:induction false} CharsFromText(s: Text, i: nat)
    requires i <= |s|
    ensures CharsText(CharsFrom(s, i)) == JsonString.QuoteBody(s, i, false)
    ensures CharsWellFormed(CharsFrom(s, i))
    ensures forall k :: 0 <= k < |CharsFrom(s, i)| ==> PrintedChar(CharsFrom(s, i)[k])
    decreases |s| - i
  {
    hide StepChars, JsonString.QuoteStep, CharWellFormed, PrintedChar;
    if i < |s| {
      var next := i + JsonString.QuoteStep(s, i, false).1;
      StepText(s, i);
      CharsFromText(s, next);
      CharsConcat(StepChars(s, i), CharsFrom(s, next));
    }
  }

  lemma QuotationOfText(s: Text)
    ensures QuotationText(QuotationOf(s)) == JsonString.Quoted(s, false)
    ensures QuotationWellFormed(QuotationOf(s)) && PrintedQuotation(QuotationOf(s))
  {
    CharsFromText(s, 0);
    assert CharsText(CharsOf(s)) + [] == CharsText(CharsOf(s));
    assert forall k :: 0 <= k < |CharsOf(s)| ==> CharWellFormed(CharsOf(s)[k]);
  }

  /** What the characters mean follows from what the decoder makes of them. */
  lemma QuotationOfMeaning(s: Text)
    ensures QuotationMeaning(QuotationOf(s)) == JsonString.Plain(Utf8.Repair(s))
  {
    hide CharsText, JsonString.QuoteBody, JsonString.DecodeFrom, Characters, CharsFrom, Utf8.RepairFrom;
    hide CharsWellFormed, PrintedChar;
    CharsFromText(s, 0);
    var body := CharsText(CharsOf(s));
    var doc := body + [34];
    assert HasAt(doc, 0, body);
    CharsDecode(doc, 0, |body|, CharsOf(s), 0, []);
    EmptyFront(QuotationMeaning(QuotationOf(s)));
    JsonString.BodyDecodes(doc, 0, |body|, s, 0, []);
    JsonString.EmptyPrefix(Utf8.Repair(s));
  }

  lemma NumeralOfText(n: int)
    ensures NumeralText(NumeralOf(n)) == IntegerText(n) && NumeralWellFormed(NumeralOf(n))
  {
    hide Digits;
  }

  lemma NumeralOfMeaning(c: Config, n: int)
    requires MIN_LARGEST_INT <= n <= MAX_LARGEST_UINT
    ensures NumberMeaning(c, NumeralOf(n))
         == Decoded.Value(if n <= MAX_LARGEST_INT then IntValue(n) else UIntValue(n))
  {
    hide Digits, Denoted, Decimal;
    var m: nat := if n < 0 then -n else n;
    DigitsDenote(m);
    DecimalIs(Digits(m));
  }

  ghost predicate SlotsShown(c: Config, st: Style, slots: seq<Slot>) {
    forall k :: 0 <= k < |slots| && slots[k].Item? ==> RealsShown(c, st, slots[k].v)
  }

  ghost predicate MembersShown(c: Config, st: Style, members: seq<Member>) {
    forall k :: 0 <= k < |members| ==> RealsShown(c, st, members[k].val)
  }

  /** A tree of the grammar, compact, with only commas between members, and with this text. */
  ghost predicate PrintedAs(t: Syntax, st: Style, text: Text) {
    SyntaxText(t) == text && Grammatical(t) && Commas(t) && Compact(t, st.yamlCompatible) && !t.Dropped?
  }

  ghost predicate ElementsPrinted(elements: seq<Element>, st: Style) {
    && ElementsWellFormed(elements)
    && forall k :: 0 <= k < |elements| ==>
         && elements[k].before == elements[k].behind == [] && Compact(elements[k].value, st.yamlCompatible)
         && Commas(elements[k].value) && !elements[k].value.Dropped?
  }

  ghost predicate MembersPrinted(members: seq<Entry>, st: Style) {
    && MembersWellFormed(members)
    && forall k :: 0 <= k < |members| ==>
         && members[k].before == members[k].afterName == members[k].behind == [] && members[k].comma == [44]
         && members[k].beforeValue == BehindColon(st)
         && members[k].name.Quoted? && PrintedQuotation(members[k].name.q)
         && Compact(members[k].value, st.yamlCompatible) && Commas(members[k].value)
  }

  /** The printer writes the compact text of the tree. */
  lemma {:induction false} WrittenIsText(c: Config, st: Style, v: Value)
    requires RealsShown(c, st, v) && !st.dropNullPlaceholders
    ensures PrintedAs(TreeOf(c, st, v), st, Written(st, v))
    decreases v, 0
  {
    hide QuotationOf, QuotationText, NumeralText, IntegerText, JsonString.Quoted, WrittenSlots, WrittenMembers;
    hide ElementsText, MembersText, ElementsOf, EntriesOf, QuotationWellFormed, NumeralWellFormed, NumberMeaning;
    hide PrintedQuotation;
    match v
    case IntValue(i) => NumeralOfText(i);
    case UIntValue(u) => NumeralOfText(u);
    case StringValue(s) => QuotationOfText(s);
    case ArrayValue(slots) =>
      SlotsText(c, st, slots);
      BlankNothing();
    case ObjectValue(members) =>
      MembersAreText(c, st, members);
      BlankNothing();
    case _ =>
  }

  lemma BlankNothing()
    ensures Blank([]) && FillerWellFormed([]) && FillerText([]) == [] && !HasComment([])
  {
  }

  lemma {:induction false} SlotsText(c: Config, st: Style, slots: seq<Slot>)
    requires SlotsShown(c, st, slots) && !st.dropNullPlaceholders
    ensures ElementsPrinted(ElementsOf(c, st, slots), st)
    ensures slots == [] <==> ElementsOf(c, st, slots) == []
    ensures slots == [] ==> WrittenSlots(st, slots) == []
    ensures slots != [] ==> ElementsText(ElementsOf(c, st, slots)) == WrittenSlots(st, slots) + [93]
    decreases slots, 1
  {
    hide SyntaxText, TreeOf, Written, Grammatical, ElementsText, Compact, Commas, FillerText, FillerWellFormed;
    if slots != [] {
      var rest := slots[1..];
      SlotIsText(c, st, slots[0]);
      SlotsText(c, st, rest);
      BlankNothing();
      ElementsSplit(ElementsOf(c, st, slots));
      SlotsUnfold(c, st, slots);
      var tree: Text := SyntaxText(SlotTree(c, st, slots[0]));
      var tail := ElementsTail(ElementsOf(c, st, rest));
      assert [] + (tree + ([] + tail)) == tree + tail;
      if rest != [] {
        assert tree + ([44] + (WrittenSlots(st, rest) + [93])) == tree + COMMA + WrittenSlots(st, rest) + [93];
      }
    }
  }

  lemma {:induction false} SlotIsText(c: Config, st: Style, s: Slot)
    requires (s.Item? ==> RealsShown(c, st, s.v)) && !st.dropNullPlaceholders
    ensures PrintedAs(SlotTree(c, st, s), st, WrittenSlot(st, s))
    decreases s
  {
    if s.Item? {
      WrittenIsText(c, st, s.v);
    }
  }

  lemma SlotsUnfold(c: Config, st: Style, slots: seq<Slot>)
    requires slots != []
    ensures WrittenSlots(st, slots) == WrittenSlot(st, slots[0])
      + (if slots[1..] == [] then [] else COMMA + WrittenSlots(st, slots[1..]))
    ensures ElementsOf(c, st, slots) != [] && ElementsOf(c, st, slots)[0] == Element([], SlotTree(c, st, slots[0]), [])
    ensures ElementsOf(c, st, slots)[1..] == ElementsOf(c, st, slots[1..])
  {
    hide WrittenSlot;
  }

  lemma {:induction false} MembersAreText(c: Config, st: Style, members: seq<Member>)
    requires MembersShown(c, st, members) && !st.dropNullPlaceholders
    ensures MembersPrinted(EntriesOf(c, st, members), st)
    ensures members == [] <==> EntriesOf(c, st, members) == []
    ensures MembersText(EntriesOf(c, st, members), false, []) == WrittenMembers(st, members) + [125]
    decreases members, 1
  {
    hide SyntaxText, TreeOf, Written, Grammatical, MembersText, QuotationText, QuotationOf, QuotationWellFormed;
    hide JsonString.Quoted, Compact, Commas, FillerText, FillerWellFormed, PrintedQuotation, HasComment;
    BlankNothing();
    if members == [] {
      NoMembersText(false, []);
      NothingThere(c, st, 0);
    } else {
      var m, rest := members[0], members[1..];
      WrittenIsText(c, st, m.val);
      QuotationOfText(m.key);
      MembersAreText(c, st, rest);
      MembersSplit(EntriesOf(c, st, members), false, []);
      EntriesUnfold(c, st, members);
      MemberTextIs(c, st, m, EntriesOf(c, st, rest));
      ColonFiller(st);
      if rest != [] {
        assert WrittenMember(st, m) + ([44] + (WrittenMembers(st, rest) + [125]))
            == WrittenMember(st, m) + COMMA + WrittenMembers(st, rest) + [125];
      }
    }
  }

  lemma ColonFiller(st: Style)
    ensures FillerWellFormed(BehindColon(st)) && !HasComment(BehindColon(st))
    ensures Separator(st) == [58] + FillerText(BehindColon(st))
  {
    assert FillerText([Space(32)]) == [32];
  }

  lemma EntriesUnfold(c: Config, st: Style, members: seq<Member>)
    requires members != []
    ensures WrittenMembers(st, members) == WrittenMember(st, members[0])
      + (if members[1..] == [] then [] else COMMA + WrittenMembers(st, members[1..]))
    ensures EntriesOf(c, st, members) != [] && EntriesOf(c, st, members)[0] == EntryOf(c, st, members[0])
    ensures EntriesOf(c, st, members)[1..] == EntriesOf(c, st, members[1..])
  {
    hide WrittenMember, EntryOf;
  }

  lemma MemberTextIs(c: Config, st: Style, m: Member, rest: seq<Entry>)
    requires SyntaxText(TreeOf(c, st, m.val)) == Written(st, m.val)
    requires QuotationText(QuotationOf(m.key)) == JsonString.Quoted(m.key, false)
    ensures var tail := MembersTail([44], rest, false, []);
      FillerText([]) + (NameText(Name.Quoted(QuotationOf(m.key)))
                        + (FillerText([]) + FromColon(EntryOf(c, st, m), tail)))
        == WrittenMember(st, m) + tail
  {
    hide SyntaxText, TreeOf, Written, QuotationText, QuotationOf, JsonString.Quoted, MembersTail, FillerText;
    var name, value, tail := JsonString.Quoted(m.key, false), Written(st, m.val), MembersTail([44], rest, false, []);
    var space := FillerText(BehindColon(st));
    BlankNothing();
    ColonFiller(st);
    assert [] + (name + ([] + ([58] + (space + (value + ([] + tail)))))) == name + ([58] + space) + value + tail;
  }

  // ----- what its tree denotes -----

  /** No two keys of an object are the same once the printer has repaired them. */
  predicate KeysStayApart(v: Value) {
    match v
    case ArrayValue(slots) => forall k :: 0 <= k < |slots| && slots[k].Item? ==> KeysStayApart(slots[k].v)
    case ObjectValue(members) =>
      && (forall i, j :: 0 <= i < j < |members| ==> Utf8.Repair(members[i].key) != Utf8.Repair(members[j].key))
      && (forall k :: 0 <= k < |members| ==> KeysStayApart(members[k].val))
    case _ => true
  }

  /** The reader finds no duplicate, or takes none for an error. */
  predicate NoDuplicates(c: Config, v: Value) {
    c.features.rejectDupKeys ==> KeysStayApart(v)
  }

  /** What the theorem asks of a value: that the type can hold it, and that its reals survive as
      text. */
  ghost predicate Readable(c: Config, st: Style, v: Value) {
    WellFormed(v) && RealsShown(c, st, v)
  }

  /** How the reading of something depends on whether it fits and has no duplicates. */
  predicate Fate(r: Reading, fits: bool, apart: bool, v: Value) {
    match r
    case Gives(w) => fits && apart && w == v
    case Refused(message) => !apart && message == DuplicateKey
    case Throws => !fits
  }

  ghost predicate SlotsReadable(c: Config, st: Style, slots: seq<Slot>) {
    forall k :: 0 <= k < |slots| && slots[k].Item? ==> Readable(c, st, slots[k].v)
  }

  predicate SlotFits(s: Slot, levels: int) {
    if s.Hole? then levels > 0 else Fits(s.v, levels)
  }

  predicate SlotsFit(slots: seq<Slot>, levels: int) {
    forall k :: 0 <= k < |slots| ==> SlotFits(slots[k], levels)
  }

  predicate SlotApart(c: Config, s: Slot) { s.Item? ==> NoDuplicates(c, s.v) }

  predicate SlotsApart(c: Config, slots: seq<Slot>) {
    forall k :: 0 <= k < |slots| ==> SlotApart(c, slots[k])
  }

  ghost predicate MembersReadable(c: Config, st: Style, members: seq<Member>) {
    forall k :: 0 <= k < |members| ==> Readable(c, st, members[k].val)
  }

  predicate MemberFits(m: Member, levels: int) {
    |Utf8.Repair(m.key)| < KEY_LIMIT && Fits(m.val, levels)
  }

  predicate MembersFit(members: seq<Member>, levels: int) {
    forall k :: 0 <= k < |members| ==> MemberFits(members[k], levels)
  }

  /** Where duplicates are rejected, the repaired keys to come are new and distinct. */
  predicate MembersApart(c: Config, ms: seq<Member>, members: seq<Member>) {
    && (c.features.rejectDupKeys ==> FreshKeys(ms, members))
    && (forall k :: 0 <= k < |members| ==> NoDuplicates(c, members[k].val))
  }

  predicate FreshKeys(ms: seq<Member>, members: seq<Member>) {
    && (forall k :: 0 <= k < |members| ==> !HasKey(ms, Utf8.Repair(members[k].key)))
    && (forall i, j :: 0 <= i < j < |members| ==> Utf8.Repair(members[i].key) != Utf8.Repair(members[j].key))
  }

  lemma SlotsCons(c: Config, slots: seq<Slot>, levels: int, done: seq<Slot>)
    requires slots != []
    ensures SlotsFit(slots, levels) <==> SlotFits(slots[0], levels) && SlotsFit(slots[1..], levels)
    ensures SlotsApart(c, slots) <==> SlotApart(c, slots[0]) && SlotsApart(c, slots[1..])
    ensures done + CanonicalSlots(slots) == done + [CanonicalSlot(slots[0])] + CanonicalSlots(slots[1..])
  {
    hide SlotFits, SlotApart, CanonicalSlot;
    assert slots == [slots[0]] + slots[1..];
  }

  lemma NoSlots(c: Config, levels: int, done: seq<Slot>)
    ensures SlotsFit([], levels) && SlotsApart(c, []) && done + CanonicalSlots([]) == done
  {
  }

  lemma HasKeyAfterPut(ms: seq<Member>, key: Text, v: Value, other: Text)
    requires Sorted(ms)
    ensures HasKey(Put(ms, key, v), other) <==> HasKey(ms, other) || other == key
  {
    hide Put, Sorted;
    PutIsUpdate(ms, key, v);
    var result := Put(ms, key, v);
    if HasKey(ms, other) && other != key {
      var k :| 0 <= k < |ms| && ms[k].key == other;
      assert ms[k] in result;
    }
    if HasKey(result, other) {
      var k :| 0 <= k < |result| && result[k].key == other;
      assert result[k] in result;
    }
  }

  lemma FreshKeysCons(ms: seq<Member>, members: seq<Member>, v: Value)
    requires Sorted(ms) && members != []
    ensures var key := Utf8.Repair(members[0].key);
      FreshKeys(ms, members) <==> !HasKey(ms, key) && FreshKeys(Put(ms, key, v), members[1..])
  {
    hide HasKey, Put, Sorted, Utf8.Repair;
    var key, rest := Utf8.Repair(members[0].key), members[1..];
    var ms' := Put(ms, key, v);
    forall k | 0 <= k < |rest|
      ensures HasKey(ms', Utf8.Repair(rest[k].key))
         <==> HasKey(ms, Utf8.Repair(members[k + 1].key)) || Utf8.Repair(members[k + 1].key) == key
    {
      HasKeyAfterPut(ms, key, v, Utf8.Repair(rest[k].key));
    }
    if !HasKey(ms, key) && FreshKeys(ms', rest) {
      forall k | 0 <= k < |members|
        ensures !HasKey(ms, Utf8.Repair(members[k].key)) && (k > 0 ==> Utf8.Repair(members[k].key) != key)
      {
        if k > 0 {
          assert !HasKey(ms', Utf8.Repair(rest[k - 1].key));
        }
      }
      forall i, j | 0 <= i < j < |members|
        ensures Utf8.Repair(members[i].key) != Utf8.Repair(members[j].key)
      {
        if i > 0 {
          assert Utf8.Repair(rest[i - 1].key) != Utf8.Repair(rest[j - 1].key);
        }
      }
    }
  }

  lemma MembersCons(c: Config, ms: seq<Member>, members: seq<Member>, v: Value, levels: int)
    requires Sorted(ms) && members != []
    ensures MembersFit(members, levels) <==> MemberFits(members[0], levels) && MembersFit(members[1..], levels)
    ensures var key := Utf8.Repair(members[0].key);
      MembersApart(c, ms, members) <==>
        (c.features.rejectDupKeys ==> !HasKey(ms, key)) && NoDuplicates(c, members[0].val)
        && MembersApart(c, Put(ms, key, v), members[1..])
  {
    hide MemberFits, NoDuplicates, FreshKeys, HasKey, Put, Sorted, Utf8.Repair;
    FreshKeysCons(ms, members, v);
    assert members == [members[0]] + members[1..];
  }

  lemma NoMembers(c: Config, ms: seq<Member>, levels: int)
    ensures MembersFit([], levels) && MembersApart(c, ms, []) && CanonicalMembers([], ms) == ms
  {
  }

  lemma LeafDenotes(c: Config, st: Style, v: Value, levels: int)
    requires Readable(c, st, v) && !v.ArrayValue? && !v.ObjectValue? && levels > 0
    ensures Fate(Read(c, TreeOf(c, st, v), levels), Fits(v, levels), NoDuplicates(c, v), Canonical(v))
  {
    hide QuotationMeaning, NumberMeaning, NumeralOf, Utf8.Repair, NumeralWellFormed, NumeralText, CharsOf;
    match v
    case IntValue(i) => NumeralOfMeaning(c, i);
    case UIntValue(u) => NumeralOfMeaning(c, u);
    case StringValue(s) => QuotationOfMeaning(s);
    case _ =>
  }

  lemma NoLevels(c: Config, t: Syntax, v: Value, levels: int)
    requires levels <= 0
    ensures Read(c, t, levels) == Throws && !Fits(v, levels)
  {
  }

  lemma ContainerRead(c: Config, st: Style, v: Value, levels: int)
    requires levels > 0
    ensures v.ArrayValue? ==>
      Read(c, TreeOf(c, st, v), levels) == ReadElements(c, ElementsOf(c, st, v.slots), levels - 1, [])
    ensures v.ObjectValue? ==>
      Read(c, TreeOf(c, st, v), levels) == ReadMembers(c, EntriesOf(c, st, v.members), false, levels - 1, true, [])
  {
    hide ElementsOf, EntriesOf, ReadElements, ReadMembers;
  }

  lemma {:induction false} TreeDenotes(c: Config, st: Style, v: Value, levels: int)
    requires Readable(c, st, v)
    ensures Fate(Read(c, TreeOf(c, st, v), levels), Fits(v, levels), NoDuplicates(c, v), Canonical(v))
    decreases v, 0
  {
    hide Read, TreeOf, Fits, NoDuplicates, Canonical, Readable, SlotsFit, SlotsApart, MembersFit, MembersApart;
    hide CanonicalSlots, CanonicalMembers, SlotsReadable, MembersReadable;
    if levels <= 0 {
      NoLevels(c, TreeOf(c, st, v), v, levels);
    } else if v.ArrayValue? {
      ContainerRead(c, st, v, levels);
      ArrayMeans(c, st, v.slots, levels);
      SlotsDenote(c, st, v.slots, levels - 1, []);
    } else if v.ObjectValue? {
      ContainerRead(c, st, v, levels);
      ObjectMeans(c, st, v.members, levels);
      MembersDenote(c, st, v.members, levels - 1, true, []);
    } else {
      LeafDenotes(c, st, v, levels);
    }
  }

  lemma ArrayMeans(c: Config, st: Style, slots: seq<Slot>, levels: int)
    requires levels > 0
    ensures Fits(ArrayValue(slots), levels) <==> SlotsFit(slots, levels - 1)
    ensures NoDuplicates(c, ArrayValue(slots)) <==> SlotsApart(c, slots)
    ensures Canonical(ArrayValue(slots)) == ArrayValue([] + CanonicalSlots(slots))
    ensures Readable(c, st, ArrayValue(slots)) ==> SlotsReadable(c, st, slots)
  {
    assert [] + CanonicalSlots(slots) == CanonicalSlots(slots);
  }

  lemma ObjectMeans(c: Config, st: Style, members: seq<Member>, levels: int)
    requires levels > 0
    ensures Fits(ObjectValue(members), levels) <==> MembersFit(members, levels - 1)
    ensures NoDuplicates(c, ObjectValue(members)) <==> MembersApart(c, [], members)
    ensures Canonical(ObjectValue(members)) == ObjectValue(CanonicalMembers(members, []))
    ensures Readable(c, st, ObjectValue(members)) ==> MembersReadable(c, st, members)
  {
    assert forall key :: !HasKey([], key);
  }

  /** A tree that nothing or only a space stands in front of. */
  lemma NothingBefore(c: Config, st: Style, t: Syntax, levels: int)
    ensures ReadBehind(c, [], t, levels) == ReadBehind(c, BehindColon(st), t, levels) == Read(c, t, levels)
  {
    BlankNothing();
    ColonFiller(st);
  }

  lemma NotDropped(c: Config, st: Style, s: Slot)
    ensures !SlotTree(c, st, s).Dropped?
  {
  }

  lemma {:induction false} SlotsDenote(c: Config, st: Style, slots: seq<Slot>, levels: int, done: seq<Slot>)
    requires SlotsReadable(c, st, slots)
    ensures Fate(ReadElements(c, ElementsOf(c, st, slots), levels, done),
                 SlotsFit(slots, levels), SlotsApart(c, slots), ArrayValue(done + CanonicalSlots(slots)))
    decreases slots, 1
  {
    hide Read, ReadBehind, ReadElements, TreeOf, Fits, NoDuplicates, Canonical, CanonicalSlots, Readable, SlotsFit;
    hide SlotsApart, ElementsOf;
    NothingThere(c, st, levels);
    if slots == [] {
      NoSlots(c, levels, done);
    } else {
      SlotsUnfold(c, st, slots);
      SlotsCons(c, slots, levels, done);
      SlotDenotes(c, st, slots[0], levels);
      NothingBefore(c, st, SlotTree(c, st, slots[0]), levels);
      NotDropped(c, st, slots[0]);
      ReadElementsStep(c, ElementsOf(c, st, slots), levels, done);
      SlotsDenote(c, st, slots[1..], levels, done + [CanonicalSlot(slots[0])]);
    }
  }

  lemma NothingThere(c: Config, st: Style, levels: int)
    ensures ElementsOf(c, st, []) == [] && EntriesOf(c, st, []) == [] && WrittenMembers(st, []) == []
    ensures forall done :: ReadElements(c, [], levels, done) == Gives(ArrayValue(done))
    ensures forall unnamed, ms :: ReadMembers(c, [], false, levels, unnamed, ms) == Gives(ObjectValue(ms))
  {
  }

  lemma {:induction false} SlotDenotes(c: Config, st: Style, s: Slot, levels: int)
    requires s.Item? ==> Readable(c, st, s.v)
    ensures CanonicalSlot(s).Item?
    ensures Fate(Read(c, SlotTree(c, st, s), levels), SlotFits(s, levels), SlotApart(c, s), CanonicalSlot(s).v)
    decreases s
  {
    hide Fits, Readable, Canonical;
    if s.Item? {
      TreeDenotes(c, st, s.v, levels);
    }
  }

  lemma NameDenotes(c: Config, key: Text)
    ensures ReadName(c, Name.Quoted(QuotationOf(key))) == JsonString.Plain(Utf8.Repair(key))
  {
    hide QuotationMeaning, Utf8.Repair;
    QuotationOfMeaning(key);
  }

  lemma {:induction false} MembersDenote(c: Config, st: Style, members: seq<Member>, levels: int, unnamed: bool,
                                          ms: seq<Member>)
    requires MembersReadable(c, st, members) && Sorted(ms)
    ensures Fate(ReadMembers(c, EntriesOf(c, st, members), false, levels, unnamed, ms), MembersFit(members, levels),
                 MembersApart(c, ms, members), ObjectValue(CanonicalMembers(members, ms)))
    decreases members, 1
  {
    hide Read, ReadBehind, ReadMembers, ReadNamed, TreeOf, Fits, NoDuplicates, Canonical, CanonicalMembers, Readable;
    hide EntriesOf, QuotationOf, ReadName, MembersFit, MembersApart, HasKey, Sorted, Put, Utf8.Repair, BehindColon;
    NothingThere(c, st, levels);
    if members == [] {
      NoMembers(c, ms, levels);
    } else {
      var key, v := Utf8.Repair(members[0].key), Canonical(members[0].val);
      EntriesUnfold(c, st, members);
      NameDenotes(c, members[0].key);
      MembersCons(c, ms, members, v, levels);
      ReadMembersStep(c, EntriesOf(c, st, members), false, levels, unnamed, ms);
      ReadNamedStep(c, EntriesOf(c, st, members), false, levels, key, ms);
      NothingBefore(c, st, TreeOf(c, st, members[0].val), levels);
      TreeDenotes(c, st, members[0].val, levels);
      PutIsUpdate(ms, key, v);
      CanonicalMembersCons(members, ms);
      MembersDenote(c, st, members[1..], levels, key == [], Put(ms, key, v));
    }
  }

  lemma CanonicalMembersCons(members: seq<Member>, ms: seq<Member>)
    requires members != []
    ensures CanonicalMembers(members, ms)
         == CanonicalMembers(members[1..], Put(ms, Utf8.Repair(members[0].key), Canonical(members[0].val)))
  {
  }

  /** The text of a value, inside any document and at any depth. */
  lemma WrittenParses(c: Config, st: Style, doc: Text, pos: nat, depth: nat, prior: Value, v: Value)
    requires Readable(c, st, v) && !st.dropNullPlaceholders
    requires HasAt(doc, pos, Written(st, v)) && Delimited(doc, pos + |Written(st, v)|)
    ensures pos <= |doc|
    ensures var p := ParseValue(c, doc, pos, depth, prior);
      var fits, apart := Fits(v, Levels(c, depth)), NoDuplicates(c, v);
      && (p.outcome == Success <==> fits && apart)
      && (p.outcome == Success ==> p == Parsed(Success, pos + |Written(st, v)|, Canonical(v), []))
      && (p.outcome == Thrown ==> !fits)
      && (!fits && apart ==> p.outcome == Thrown)
      && (!apart && p.outcome != Thrown ==> FailedWith(p, DuplicateKey))
  {
    hide ParseValue, Written, TreeOf, Grammatical, SyntaxText, Read, Canonical, Fits, NoDuplicates, Readable, Delimited;
    hide Commas, Compact, HasAt, Leads;
    ReadableShown(c, st, v);
    WrittenIsText(c, st, v);
    var t := TreeOf(c, st, v);
    SyntaxStarts(t);
    HasAtBound(doc, pos, Written(st, v));
    HasAtIndex(doc, pos, Written(st, v), 0);
    NothingLeads(c.features, doc, pos);
    TreeParses(c, doc, pos, pos, depth, prior, t);
    TreeDenotes(c, st, v, Levels(c, depth));
  }

  lemma NothingLeads(f: JsonLexer.Features, doc: Text, pos: nat)
    requires pos < |doc| && !White(doc[pos])
    ensures Leads(f, doc, pos, pos)
  {
    hide JsonLexer.SkipCommentTokens;
    NoSpace(f, doc, pos);
  }

  // ----- whole documents -----

  /** The line feed that ends a document unless it is omitted. */
  function LastFeed(st: Style): Filler { if st.omitEndingLineFeed then [] else [Space(10)] }

  lemma DocumentIsText(c: Config, st: Style, v: Value)
    requires RealsShown(c, st, v) && !st.dropNullPlaceholders
    ensures PrintedAs(TreeOf(c, st, v), st, Written(st, v))
    ensures Document(st, v) == DocumentText([], [], TreeOf(c, st, v), LastFeed(st), [])
    ensures FillerWellFormed(LastFeed(st)) && !HasComment(LastFeed(st)) && FillerWellFormed([])
  {
    hide SyntaxText, TreeOf, Written, Grammatical, RealsShown, Compact, Commas, FillerText;
    WrittenIsText(c, st, v);
    FeedText(st);
    BlankNothing();
    assert forall t: Text :: [] + t == t && t + [] == t;
  }

  lemma FeedText(st: Style)
    ensures FillerText(LastFeed(st)) == if st.omitEndingLineFeed then [] else [10]
    ensures FillerWellFormed(LastFeed(st)) && !HasComment(LastFeed(st))
  {
    assert FillerText([Space(10)]) == [10];
  }

  lemma CanonicalKind(v: Value)
    ensures Canonical(v).ArrayValue? == v.ArrayValue? && Canonical(v).ObjectValue? == v.ObjectValue?
  {
  }

  /** The root is what strictRoot asks for. */
  predicate RootAllowed(c: Config, v: Value) {
    c.features.strictRoot ==> v.ArrayValue? || v.ObjectValue?
  }

  /** The main theorem. Whatever the feature flags and the style of the writer, reading a
      written value succeeds exactly if it is nested within the stack limit with short
      keys, no keys collide where duplicates are rejected, and the root is allowed; then it
      gives the canonical form of the value without a single error. Too deep a nesting or
      too long a key throws and a collision is the first error, whichever comes first. */
  lemma DocumentRoundTrip(c: Config, st: Style, v: Value, prior: Value)
    requires Readable(c, st, v) && !st.dropNullPlaceholders
    ensures var p := ParseDocument(c, Document(st, v), prior);
      var fits, apart := Fits(v, c.features.stackLimit), NoDuplicates(c, v);
      && (p.outcome == Success <==> fits && apart && RootAllowed(c, v))
      && (p.outcome == Success ==> p.errors == [])
      && (fits && apart ==> p.val == Canonical(v) && p.pos == |Document(st, v)|)
      && (p.outcome == Thrown ==> !fits)
      && (!fits && apart ==> p.outcome == Thrown)
      && (!apart && p.outcome != Thrown ==> FailedWith(p, DuplicateKey))
  {
    hide ParseDocument, Document, DocumentText, TreeOf, Grammatical, Read, ReadBehind, Canonical, Fits, NoDuplicates;
    hide Readable, Commas, Compact, SyntaxText, HasComment, FillerWellFormed, LastFeed;
    ReadableShown(c, st, v);
    DocumentIsText(c, st, v);
    GrammarAccepted(c, [], [], TreeOf(c, st, v), LastFeed(st), [], prior);
    NothingBefore(c, st, TreeOf(c, st, v), c.features.stackLimit);
    TreeDenotes(c, st, v, c.features.stackLimit);
    CanonicalKind(v);
  }

  lemma ReadableShown(c: Config, st: Style, v: Value)
    requires Readable(c, st, v)
    ensures RealsShown(c, st, v) && WellFormed(v)
  {
  }

  /** Keys that are well-formed need no repair, and those of an object are distinct. */
  lemma {:induction false} FaithfulApart(v: Value)
    requires WellFormed(v) && Faithful(v)
    ensures KeysStayApart(v)
  {
    hide Utf8.Repair, Utf8.Valid;
    match v
    case ArrayValue(slots) =>
      forall k | 0 <= k < |slots|
        ensures KeysStayApart(slots[k].v)
      {
        FaithfulApart(slots[k].v);
      }
    case ObjectValue(ms) =>
      forall i, j | 0 <= i < j < |ms|
        ensures Utf8.Repair(ms[i].key) != Utf8.Repair(ms[j].key)
      {
        Utf8.RepairExact(ms[i].key);
        Utf8.RepairExact(ms[j].key);
        KeyLessTotal(ms[i].key, ms[j].key);
      }
      forall k | 0 <= k < |ms|
        ensures KeysStayApart(ms[k].val)
      {
        FaithfulApart(ms[k].val);
      }
    case _ =>
  }

  /** The round trip is the identity exactly for faithful values that fit and whose root is
      allowed. */
  lemma DocumentRoundTripExact(c: Config, st: Style, v: Value, prior: Value)
    requires Readable(c, st, v) && !st.dropNullPlaceholders
    ensures ParseDocument(c, Document(st, v), prior).outcome == Success
         && ParseDocument(c, Document(st, v), prior).val == v
       <==> Fits(v, c.features.stackLimit) && Faithful(v) && RootAllowed(c, v)
  {
    hide ParseDocument, Document, Canonical, Fits, KeysStayApart, Faithful;
    DocumentRoundTrip(c, st, v, prior);
    ReadableShown(c, st, v);
    CanonicalExact(v);
    if Faithful(v) {
      FaithfulApart(v);
    }
  }
}
