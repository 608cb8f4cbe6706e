/** What the reader makes of every text of the grammar. */
module JsonAccepts {
  import opened Bytes
  import opened JsonErrors
  import opened JsonGrammar
  import opened JsonLexer
  import opened JsonParser
  import JsonNumber
  import opened JsonTokens
  import opened JsonValue
  import JsonString

  // ----- leaves -----

  predicate IsLeaf(t: Syntax) { !t.ArraySyntax? && !t.ObjectSyntax? }

  /** A null of which nothing is written needs something behind it that closes it. */
  predicate ClosedBehind(doc: Text, end: nat, t: Syntax) {
    t.Dropped? ==> end < |doc| && doc[end] in {44, 93, 125}
  }

  predicate LeafReads(c: Config, doc: Text, start: nat, prior: Value, t: Syntax)
    requires start <= |doc|
  {
    var token := TokenAt(c.features, doc, start);
    && token.kind !in {CommentToken, ObjectBegin, ArrayBegin}
    && Reads(Leaf(c, doc, token, prior), Read(c, t, 1), start + |SyntaxText(t)|)
  }

  lemma WordReads(c: Config, doc: Text, start: nat, prior: Value, t: Syntax)
    requires IsWord(t) && start <= |doc| && HasAt(doc, start, SyntaxText(t))
    ensures LeafReads(c, doc, start, prior, t)
  {
    hide HasAt, TokenAt;
    WordToken(c.features, doc, start, t);
  }

  lemma NumberReads(c: Config, doc: Text, start: nat, prior: Value, t: Syntax)
    requires t.NumberSyntax? && Grammatical(t) && start <= |doc|
    requires HasAt(doc, start, SyntaxText(t)) && Delimited(doc, start + |SyntaxText(t)|)
    ensures LeafReads(c, doc, start, prior, t)
  {
    hide HasAt, TokenAt, JsonParser.DecodeNumber, NumberMeaning, NumeralText, NumeralWellFormed, Delimited;
    NumberRead(c, doc, start, t.n);
  }

  lemma StringReads(c: Config, doc: Text, start: nat, prior: Value, t: Syntax)
    requires t.StringSyntax? && Grammatical(t) && start <= |doc| && HasAt(doc, start, SyntaxText(t))
    ensures LeafReads(c, doc, start, prior, t)
  {
    hide HasAt, TokenAt, JsonString.Decode, QuotationMeaning, QuotationText, QuotationWellFormed;
    StringRead(c.features, doc, start, t.q);
  }

  lemma SpecialReads(c: Config, doc: Text, start: nat, prior: Value, t: Syntax)
    requires t.SpecialSyntax? && start <= |doc| && HasAt(doc, start, SyntaxText(t))
    ensures LeafReads(c, doc, start, prior, t)
  {
    hide HasAt, TokenAt, SpecialText;
    SpecialToken(c.features, doc, start, t.s);
  }

  lemma DroppedReads(c: Config, doc: Text, start: nat, prior: Value, t: Syntax)
    requires t.Dropped? && start < |doc| && doc[start] in {44, 93, 125}
    ensures LeafReads(c, doc, start, prior, t)
  {
    hide TokenAt;
    PunctuationToken(c.features, doc, start);
  }

  lemma LeafToken(c: Config, doc: Text, start: nat, prior: Value, t: Syntax)
    requires IsLeaf(t) && Grammatical(t) && start <= |doc|
    requires HasAt(doc, start, SyntaxText(t)) && Delimited(doc, start + |SyntaxText(t)|)
    requires ClosedBehind(doc, start + |SyntaxText(t)|, t)
    ensures LeafReads(c, doc, start, prior, t)
  {
    hide HasAt, LeafReads, Delimited, Grammatical, SyntaxText;
    match t
    case NumberSyntax(_) => NumberReads(c, doc, start, prior, t);
    case StringSyntax(_) => StringReads(c, doc, start, prior, t);
    case SpecialSyntax(_) => SpecialReads(c, doc, start, prior, t);
    case Dropped =>
      NoText();
      DroppedReads(c, doc, start, prior, t);
    case _ => WordReads(c, doc, start, prior, t);
  }

  lemma NoText()
    ensures SyntaxText(Dropped) == []
  {
  }

  lemma LeafReading(c: Config, t: Syntax, levels: int)
    requires IsLeaf(t) && levels > 0
    ensures Read(c, t, levels) == Read(c, t, 1)
  {
  }

  /** Between two positions there is only what is skipped in front of a value. */
  predicate Leads(f: Features, doc: Text, pos: nat, start: nat) {
    pos <= start <= |doc| && SkipSpaces(doc, start) == start
    && SkipCommentTokens(f, doc, pos) == SkipCommentTokens(f, doc, start)
  }

  lemma LeadsTo(f: Features, doc: Text, pos: nat, start: nat)
    requires Leads(f, doc, pos, start) && TokenAt(f, doc, start).kind != CommentToken
    ensures SkipCommentTokens(f, doc, pos) == TokenAt(f, doc, start)
  {
    hide TokenAt;
  }

  lemma LeafParses(c: Config, doc: Text, pos: nat, start: nat, depth: nat, prior: Value, t: Syntax)
    requires IsLeaf(t) && Grammatical(t) && Leads(c.features, doc, pos, start) && depth <= c.features.stackLimit
    requires HasAt(doc, start, SyntaxText(t)) && Delimited(doc, start + |SyntaxText(t)|)
    requires ClosedBehind(doc, start + |SyntaxText(t)|, t)
    ensures Reads(ParseValue(c, doc, pos, depth, prior), Read(c, t, Levels(c, depth)), start + |SyntaxText(t)|)
  {
    hide HasAt, TokenAt, Leaf, Read, SyntaxText, SkipCommentTokens, Delimited, Reads, Grammatical;
    LeafToken(c, doc, start, prior, t);
    LeafReading(c, t, Levels(c, depth));
    LeadsTo(c.features, doc, pos, start);
  }

  // ----- where texts start, and what stands behind them -----

  lemma NumeralStarts(n: Numeral)
    requires NumeralWellFormed(n)
    ensures NumeralText(n) != [] && (NumeralText(n)[0] in {43, 45} || 48 <= NumeralText(n)[0] <= 57)
  {
    hide FractionWellFormed, ExponentWellFormed;
    if n.sign == NoSign {
      assert NumeralText(n)[0] == n.digits[0];
    }
  }

  lemma HeadOf(b: Byte, t: Text)
    ensures [b] + t != [] && ([b] + t)[0] == b
  {
  }

  lemma SyntaxStarts(t: Syntax)
    requires Grammatical(t) && !t.Dropped?
    ensures SyntaxText(t) != [] && !White(SyntaxText(t)[0])
    ensures SyntaxText(t)[0] !in {0, 44, 47, 58, 93, 125, 0xEF}
  {
    hide NumeralText, NumeralWellFormed, QuotationWellFormed, CharsText, FillerText, ElementsText, MembersText;
    hide FillerWellFormed, Blank, Omitted, NameWellFormed, Separates;
    match t
    case NumberSyntax(n) => NumeralStarts(n);
    case StringSyntax(q) => HeadOf(Mark(q), (CharsText(q.chars) + q.tail) + [Mark(q)]);
    case ArraySyntax(elements, blank) =>
      HeadOf(91, if elements == [] then FillerText(blank) + [93] else ElementsText(elements));
    case ObjectSyntax(members, trailing, blank) => HeadOf(123, MembersText(members, trailing, blank));
    case _ =>
  }

  lemma NameStarts(name: Name)
    requires NameWellFormed(name)
    ensures NameText(name) != [] && !White(NameText(name)[0]) && NameText(name)[0] !in {0, 44, 47, 58, 93, 125}
  {
    hide NumeralText, NumeralWellFormed, QuotationWellFormed, CharsText;
    match name
    case Numeric(n) => NumeralStarts(n);
    case Quoted(q) => HeadOf(Mark(q), (CharsText(q.chars) + q.tail) + [Mark(q)]);
  }

  lemma FillerStarts(ps: Filler)
    requires FillerWellFormed(ps) && FillerText(ps) != []
    ensures White(FillerText(ps)[0]) || FillerText(ps)[0] == 47
  {
    assert PieceWellFormed(ps[0]);
  }

  /** Something that stands behind a filler, and is no space itself. */
  lemma BehindFiller(f: Features, doc: Text, pos: nat, ps: Filler, t: Text)
    requires HasAt(doc, pos, FillerText(ps) + t) && FillerWellFormed(ps) && t != [] && !White(t[0])
    ensures Skipped(f, doc, pos, pos + |FillerText(ps)|, HasComment(ps)) && HasAt(doc, pos + |FillerText(ps)|, t)
    ensures pos + |FillerText(ps)| < |doc| && doc[pos + |FillerText(ps)|] == t[0]
  {
    hide HasAt, FillerText, Skipped, HasComment, FillerWellFormed;
    HasAtSplit(doc, pos, FillerText(ps), t);
    HasAtHead(doc, pos + |FillerText(ps)|, t);
    FillerSkipped(f, doc, pos, ps);
  }

  /** What stands behind a value: a filler and one more character. */
  lemma BehindValue(f: Features, doc: Text, end: nat, behind: Filler, t: Text)
    requires HasAt(doc, end, FillerText(behind) + t) && FillerWellFormed(behind)
    requires t != [] && t[0] in {44, 58, 93, 125}
    ensures Delimited(doc, end)
    ensures Skipped(f, doc, end, end + |FillerText(behind)|, HasComment(behind))
    ensures HasAt(doc, end + |FillerText(behind)|, t)
    ensures end + |FillerText(behind)| < |doc| && doc[end + |FillerText(behind)|] == t[0]
  {
    hide HasAt, FillerText, Skipped, HasComment, FillerWellFormed;
    BehindFiller(f, doc, end, behind, t);
    if FillerText(behind) != [] {
      FillerStarts(behind);
      HasAtSplit(doc, end, FillerText(behind), t);
      HasAtIndex(doc, end, FillerText(behind), 0);
    }
  }

  lemma PunctuationBehind(f: Features, doc: Text, pos: nat, at: nat, comments: bool)
    requires Skipped(f, doc, pos, at, comments) && at < |doc| && doc[at] in {123, 125, 91, 93, 44, 58}
    ensures NonComment(f, doc, pos) == TokenAt(f, doc, at)
    ensures !comments ==> ReadToken(f, doc, pos) == TokenAt(f, doc, at)
    ensures var c := doc[at];
      TokenAt(f, doc, at)
        == Token(if c == 123 then ObjectBegin else if c == 125 then ObjectEnd
                 else if c == 91 then ArrayBegin else if c == 93 then ArrayEnd
                 else if c == 44 then ArraySeparator else MemberSeparator, at, at + 1)
  {
    hide TokenAt;
    PunctuationToken(f, doc, at);
  }

  // ----- elements -----

  /** What follows an element: the closing bracket, or a comma and the other elements. */
  function ElementsTail(rest: seq<Element>): Text {
    if rest == [] then [93] else [44] + ElementsText(rest)
  }

  lemma ElementsSplit(elements: seq<Element>)
    requires elements != []
    ensures var e, rest := elements[0], elements[1..];
      && ElementsText(elements)
         == FillerText(e.before) + (SyntaxText(e.value) + (FillerText(e.behind) + ElementsTail(rest)))
      && |ElementsText(elements)|
         == |FillerText(e.before)| + |SyntaxText(e.value)| + |FillerText(e.behind)| + |ElementsTail(rest)|
      && ElementsTail(rest) != [] && ElementsTail(rest)[0] == (if rest == [] then 93 else 44)
  {
    hide SyntaxText, FillerText;
  }

  lemma FirstElement(elements: seq<Element>)
    requires elements != [] && ElementsWellFormed(elements)
    ensures var e := elements[0];
      && FillerWellFormed(e.before) && Grammatical(e.value) && FillerWellFormed(e.behind)
      && (e.value.Dropped? ==> e.behind == []) && ElementsWellFormed(elements[1..])
  {
    hide Grammatical, FillerWellFormed;
  }

  /** Where a value text starts, or, when nothing is written, what stands behind it. */
  lemma ValueStarts(t: Syntax, behind: Filler, tail: Text)
    requires Grammatical(t) && (t.Dropped? ==> behind == []) && tail != [] && tail[0] in {44, 93, 125}
    ensures var text := SyntaxText(t) + (FillerText(behind) + tail);
      text != [] && !White(text[0]) && (if t.Dropped? then text[0] == tail[0] else text[0] !in {44, 47, 93, 125})
  {
    hide Grammatical, FillerText;
    if t.Dropped? {
      NoText();
      NoFiller();
      assert SyntaxText(t) + (FillerText(behind) + tail) == tail;
    } else {
      hide SyntaxText;
      SyntaxStarts(t);
    }
  }

  lemma NoFiller()
    ensures FillerText([]) == []
  {
  }

  /** What stands in the text around the value of an element or a member, from its filler on. */
  ghost predicate ValueStands(f: Features, doc: Text, pos: nat, before: Filler, t: Syntax, behind: Filler, next: Byte) {
    var start := pos + |FillerText(before)|;
    var end := start + |SyntaxText(t)|;
    var at := end + |FillerText(behind)|;
    && Skipped(f, doc, pos, start, HasComment(before))
    && start < |doc| && !White(doc[start]) && (t.Dropped? ==> start == end == at) && (!t.Dropped? ==> doc[start] != 93)
    && HasAt(doc, start, SyntaxText(t)) && Delimited(doc, end)
    && Skipped(f, doc, end, at, HasComment(behind)) && at < |doc| && doc[at] == next && next in {44, 93, 125}
  }

  lemma ValueIsThere(f: Features, doc: Text, pos: nat, before: Filler, t: Syntax, behind: Filler, tail: Text)
    requires FillerWellFormed(before) && Grammatical(t) && FillerWellFormed(behind)
    requires (t.Dropped? ==> behind == []) && tail != [] && tail[0] in {44, 93, 125}
    requires HasAt(doc, pos, FillerText(before) + (SyntaxText(t) + (FillerText(behind) + tail)))
    ensures ValueStands(f, doc, pos, before, t, behind, tail[0])
    ensures HasAt(doc, pos + |FillerText(before)| + |SyntaxText(t)| + |FillerText(behind)|, tail)
  {
    hide HasAt, SyntaxText, Grammatical, FillerText, FillerWellFormed, Skipped, Delimited, HasComment;
    var start := pos + |FillerText(before)|;
    ValueStarts(t, behind, tail);
    BehindFiller(f, doc, pos, before, SyntaxText(t) + (FillerText(behind) + tail));
    HasAtSplit(doc, start, SyntaxText(t), FillerText(behind) + tail);
    BehindValue(f, doc, start + |SyntaxText(t)|, behind, tail);
    if t.Dropped? {
      NoText();
      NoFiller();
    }
  }

  lemma MoreElements(doc: Text, at: nat, rest: seq<Element>)
    requires HasAt(doc, at, ElementsTail(rest))
    ensures rest != [] ==> HasAt(doc, at + 1, ElementsText(rest))
  {
    hide HasAt, ElementsText;
    if rest != [] {
      HasAtSplit(doc, at, [44], ElementsText(rest));
    }
  }

  lemma BehindElement(c: Config, doc: Text, depth: nat, slots: seq<Slot>, v: Value, end: nat, at: nat, comments: bool)
    requires Skipped(c.features, doc, end, at, comments) && at < |doc| && doc[at] in {44, 93}
    ensures AfterElement(c, doc, depth, slots, Parsed(Success, end, v, []))
         == if doc[at] == 93 then Parsed(Success, at + 1, ArrayValue(slots), [])
            else ParseElements(c, doc, at + 1, depth, slots)
  {
    hide ParseElements, NonComment, TokenAt;
    PunctuationBehind(c.features, doc, end, at, comments);
  }

  lemma GivesIs(p: Parsed, v: Value, end: nat)
    ensures Reads(p, Gives(v), end) <==> p == Parsed(Success, end, v, [])
  {
  }

  /** What went wrong inside an element or a member goes wrong for the whole. */
  lemma UnreadElement(c: Config, doc: Text, depth: nat, slots: seq<Slot>, r: Parsed, reading: Reading,
                      end: nat, behind: nat)
    requires Reads(r, reading, end) && !reading.Gives? && r.pos <= |doc|
    ensures Reads(AfterElement(c, doc, depth, slots, r), reading, behind)
  {
    hide AfterElement;
    AfterUnreadElement(c, doc, depth, slots, r);
  }

  lemma UnreadMember(c: Config, doc: Text, depth: nat, name: Text, ms: seq<Member>, r: Parsed, reading: Reading,
                     end: nat, behind: nat)
    requires Reads(r, reading, end) && !reading.Gives? && r.pos <= |doc|
    ensures Reads(AfterMember(c, doc, depth, name, ms, r), reading, behind)
  {
    hide AfterMember;
    AfterUnread(c, doc, depth, name, ms, r);
  }

  /** Spaces in front of a value do not matter. */
  lemma SpacesSkipped(c: Config, doc: Text, pos: nat, depth: nat, prior: Value, r: Reading, end: nat)
    requires pos <= |doc|
    ensures Reads(ParseValue(c, doc, pos, depth, prior), r, end)
       <==> Reads(ParseValue(c, doc, SkipSpaces(doc, pos), depth, prior), r, end)
  {
    hide ParseMembers, ParseElements, Leaf, TokenAt;
    var start := SkipSpaces(doc, pos);
    assert SkipSpaces(doc, start) == start;
    assert ReadToken(c.features, doc, pos) == ReadToken(c.features, doc, start);
    assert SkipCommentTokens(c.features, doc, pos) == SkipCommentTokens(c.features, doc, start);
  }

  lemma ReadElementsStep(c: Config, elements: seq<Element>, levels: int, done: seq<Slot>)
    requires elements != [] && !EndsArray(c, elements, done)
    ensures var r := ReadBehind(c, elements[0].before, elements[0].value, levels);
      ReadElements(c, elements, levels, done) ==
        if !r.Gives? then r else ReadElements(c, elements[1..], levels, done + [Item(r.v)])
  {
    hide ReadBehind;
  }

  lemma NothingRead(c: Config, levels: int, done: seq<Slot>)
    ensures ReadElements(c, [], levels, done) == Gives(ArrayValue(done))
  {
  }

  /** Whether the bracket closes the array where an element could stand. */
  lemma ClosesOrNot(c: Config, doc: Text, pos: nat, elements: seq<Element>, done: seq<Slot>, next: Byte)
    requires elements != [] && (done == [] ==> !(|elements| == 1 && Omitted(elements[0])))
    requires var e := elements[0]; ValueStands(c.features, doc, pos, e.before, e.value, e.behind, next)
    requires next == (if elements[1..] == [] then 93 else 44)
    ensures pos <= |doc|
    ensures var start := SkipSpaces(doc, pos);
      start < |doc| && doc[start] == 93 && ArrayMayClose(c.features, done) <==> EndsArray(c, elements, done)
    ensures EndsArray(c, elements, done) ==>
      SkipSpaces(doc, pos) == pos + |FillerText(elements[0].before)| + |SyntaxText(elements[0].value)|
                                  + |FillerText(elements[0].behind)|
  {
    hide HasComment, SyntaxText, FillerText;
  }

  lemma {:induction false} ElementsParse(c: Config, doc: Text, pos: nat, depth: nat, done: seq<Slot>,
                                          elements: seq<Element>)
    requires elements != [] && ElementsWellFormed(elements) && depth <= c.features.stackLimit
    requires forall k :: 0 <= k < |elements| ==> Commas(elements[k].value)
    requires done == [] ==> !(|elements| == 1 && Omitted(elements[0]))
    requires HasAt(doc, pos, ElementsText(elements))
    ensures Reads(ParseElements(c, doc, pos, depth, done),
                  ReadElements(c, elements, Levels(c, depth + 1), done), pos + |ElementsText(elements)|)
    decreases elements, 3
  {
    hide ParseValue, ParseElements, AfterElement, HasAt, SyntaxText, ElementsText, Read, ReadBehind, ReadElements;
    hide Grammatical, Commas, Skipped, Delimited, FillerText, Reads, EndsArray, HasComment, ValueStands;
    hide FillerWellFormed, Omitted, ElementsTail;
    var e, rest := elements[0], elements[1..];
    var end := pos + |FillerText(e.before)| + |SyntaxText(e.value)|;
    var at := end + |FillerText(e.behind)|;
    var next: Byte := if rest == [] then 93 else 44;
    var levels := Levels(c, depth + 1);
    FirstElement(elements);
    ElementsSplit(elements);
    ValueIsThere(c.features, doc, pos, e.before, e.value, e.behind, ElementsTail(rest));
    ClosesOrNot(c, doc, pos, elements, done, next);
    ElementsUnfold(c, doc, pos, depth, done);
    TailLength(rest);
    if EndsArray(c, elements, done) {
      ArrayEnded(c, elements, levels, done);
      GivesIs(ParseElements(c, doc, pos, depth, done), ArrayValue(done), at + 1);
    } else {
      ReadElementsStep(c, elements, levels, done);
      var start := SkipSpaces(doc, pos);
      var r := ParseValue(c, doc, start, depth + 1, NullValue);
      var reading := ReadBehind(c, e.before, e.value, levels);
      ValueParses(c, doc, pos, e.before, e.value, e.behind, depth + 1, NullValue, next);
      SpacesSkipped(c, doc, pos, depth + 1, NullValue, reading, end);
      if reading.Gives? {
        var done' := done + [Item(reading.v)];
        GivesIs(r, reading.v, end);
        StandsBehind(c.features, doc, pos, e.before, e.value, e.behind, next);
        BehindElement(c, doc, depth, done', reading.v, end, at, HasComment(e.behind));
        if rest == [] {
          NothingRead(c, levels, done');
          GivesIs(ParseElements(c, doc, pos, depth, done), ArrayValue(done'), at + 1);
        } else {
          MoreElements(doc, at, rest);
          ElementsParse(c, doc, at + 1, depth, done', rest);
        }
      } else {
        UnreadElement(c, doc, depth, done + [Item(r.val)], r, reading, end, pos + |ElementsText(elements)|);
      }
    }
  }

  lemma TailLength(rest: seq<Element>)
    ensures |ElementsTail(rest)| == if rest == [] then 1 else 1 + |ElementsText(rest)|
  {
    hide ElementsText;
  }

  lemma ArrayEnded(c: Config, elements: seq<Element>, levels: int, done: seq<Slot>)
    requires elements != [] && EndsArray(c, elements, done)
    ensures ReadElements(c, elements, levels, done) == Gives(ArrayValue(done)) && elements[1..] == []
  {
  }

  lemma StandsBehind(f: Features, doc: Text, pos: nat, before: Filler, t: Syntax, behind: Filler, next: Byte)
    requires ValueStands(f, doc, pos, before, t, behind, next)
    ensures var end := pos + |FillerText(before)| + |SyntaxText(t)|;
      var at := end + |FillerText(behind)|;
      pos <= |doc| && at < |doc| && doc[at] == next && Skipped(f, doc, end, at, HasComment(behind))
  {
    hide Skipped, HasComment, SyntaxText, FillerText;
    SkippedBounds(f, doc, pos, pos + |FillerText(before)|, HasComment(before));
  }

  lemma SkippedBounds(f: Features, doc: Text, pos: nat, end: nat, comments: bool)
    requires Skipped(f, doc, pos, end, comments)
    ensures pos <= end <= |doc|
  {
  }

  /** A value where it stands, whether comments are allowed in front of it or not. */
  lemma {:induction false} ValueParses(c: Config, doc: Text, pos: nat, before: Filler, t: Syntax, behind: Filler,
                                        depth: nat, prior: Value, next: Byte)
    requires Grammatical(t) && Commas(t) && ValueStands(c.features, doc, pos, before, t, behind, next)
    ensures pos <= |doc|
    ensures Reads(ParseValue(c, doc, pos, depth, prior), ReadBehind(c, before, t, Levels(c, depth)),
                  pos + |FillerText(before)| + |SyntaxText(t)|)
    decreases t, 2
  {
    hide ParseValue, SyntaxText, ReadBehind, Grammatical, Commas, Delimited, FillerText, HasComment, Skipped, Reads;
    hide HasAt;
    BehindParses(c, doc, pos, before, t, depth, prior);
  }

  lemma {:induction false} BehindParses(c: Config, doc: Text, pos: nat, before: Filler, t: Syntax, depth: nat,
                                         prior: Value)
    requires Grammatical(t) && Commas(t)
    requires var start := pos + |FillerText(before)|;
      var end := start + |SyntaxText(t)|;
      && Skipped(c.features, doc, pos, start, HasComment(before)) && HasAt(doc, start, SyntaxText(t))
      && Delimited(doc, end) && ClosedBehind(doc, end, t)
    ensures pos <= |doc|
    ensures Reads(ParseValue(c, doc, pos, depth, prior), ReadBehind(c, before, t, Levels(c, depth)),
                  pos + |FillerText(before)| + |SyntaxText(t)|)
    decreases t, 1
  {
    hide ParseValue, SyntaxText, ReadBehind, Grammatical, Commas, Delimited, FillerText, HasComment, Skipped, Reads;
    hide HasAt, Leads, ClosedBehind;
    var start := pos + |FillerText(before)|;
    SkippedBounds(c.features, doc, pos, start, HasComment(before));
    BehindCases(c, before, t, Levels(c, depth));
    if depth <= c.features.stackLimit && HasComment(before) && !c.features.allowComments {
      CommentRefused(c, doc, pos, start, depth, prior);
    } else {
      if depth <= c.features.stackLimit {
        SkippedLeads(c.features, doc, pos, start, HasComment(before));
      }
      TreeParses(c, doc, pos, start, depth, prior, t);
    }
  }

  lemma BehindCases(c: Config, before: Filler, t: Syntax, levels: int)
    ensures ReadBehind(c, before, t, levels)
         == if levels > 0 && HasComment(before) && !c.features.allowComments then Refused(ValueExpected)
            else Read(c, t, levels)
  {
  }

  lemma SkippedLeads(f: Features, doc: Text, pos: nat, start: nat, comments: bool)
    requires Skipped(f, doc, pos, start, comments) && (comments ==> f.allowComments)
    ensures Leads(f, doc, pos, start)
  {
  }

  /** A comment where none is allowed is no value. */
  lemma CommentRefused(c: Config, doc: Text, pos: nat, start: nat, depth: nat, prior: Value)
    requires Skipped(c.features, doc, pos, start, true) && !c.features.allowComments && depth <= c.features.stackLimit
    ensures forall end :: Reads(ParseValue(c, doc, pos, depth, prior), Refused(ValueExpected), end)
  {
    hide ReadToken, NonComment;
  }

  lemma EmptyArrayParses(c: Config, doc: Text, pos: nat, depth: nat, blank: Filler)
    requires Blank(blank) && HasAt(doc, pos, FillerText(blank) + [93])
    ensures pos <= |doc|
    ensures ParseElements(c, doc, pos, depth, []) == Parsed(Success, pos + |FillerText(blank)| + 1, ArrayValue([]), [])
  {
    hide HasAt, FillerText, HasComment, FillerWellFormed, ParseElements, ParseValue, AfterElement;
    BehindFiller(c.features, doc, pos, blank, [93]);
    ElementsUnfold(c, doc, pos, depth, []);
  }

  // ----- members -----

  function MembersTail(comma: Text, rest: seq<Entry>, trailing: bool, blank: Filler): Text {
    if rest == [] && !trailing then [125] else comma + MembersText(rest, trailing, blank)
  }

  function FromColon(m: Entry, tail: Text): Text {
    [58] + (FillerText(m.beforeValue) + (SyntaxText(m.value) + (FillerText(m.behind) + tail)))
  }

  lemma MembersSplit(members: seq<Entry>, trailing: bool, blank: Filler)
    requires members != []
    ensures var m := members[0];
      var tail := MembersTail(m.comma, members[1..], trailing, blank);
      && MembersText(members, trailing, blank)
         == FillerText(m.before) + (NameText(m.name) + (FillerText(m.afterName) + FromColon(m, tail)))
      && |MembersText(members, trailing, blank)|
         == |FillerText(m.before)| + |NameText(m.name)| + |FillerText(m.afterName)| + |FromColon(m, tail)|
      && |FromColon(m, tail)|
         == 1 + |FillerText(m.beforeValue)| + |SyntaxText(m.value)| + |FillerText(m.behind)| + |tail|
  {
    hide SyntaxText, NameText, FillerText;
  }

  lemma FirstMember(members: seq<Entry>)
    requires members != [] && MembersWellFormed(members)
    ensures var m := members[0];
      && FillerWellFormed(m.before) && NameWellFormed(m.name) && Blank(m.afterName)
      && FillerWellFormed(m.beforeValue) && Grammatical(m.value) && FillerWellFormed(m.behind)
      && (m.value.Dropped? ==> m.behind == []) && MembersWellFormed(members[1..])
  {
    hide Grammatical, FillerWellFormed, NameWellFormed, Blank, Separates;
  }

  lemma TailStarts(comma: Text, rest: seq<Entry>, trailing: bool, blank: Filler)
    requires comma == [44]
    ensures var tail := MembersTail(comma, rest, trailing, blank);
      && tail != [] && tail[0] == (if rest == [] && !trailing then 125 else 44)
      && |tail| == 1 + if rest == [] && !trailing then 0 else |MembersText(rest, trailing, blank)|
  {
    hide MembersText;
  }

  lemma MoreMembers(doc: Text, at: nat, rest: seq<Entry>, trailing: bool, blank: Filler)
    requires HasAt(doc, at, MembersTail([44], rest, trailing, blank))
    ensures rest != [] || trailing ==> HasAt(doc, at + 1, MembersText(rest, trailing, blank))
  {
    hide HasAt, MembersText;
    if rest != [] || trailing {
      HasAtSplit(doc, at, [44], MembersText(rest, trailing, blank));
    }
  }

  /** A name where it stands, up to the colon. */
  lemma NameParses(c: Config, doc: Text, pos: nat, quote: nat, depth: nat, unnamed: bool, ms: seq<Member>,
                   name: Name, comments: bool)
    requires NameWellFormed(name) && Skipped(c.features, doc, pos, quote, comments)
    requires HasAt(doc, quote, NameText(name)) && Delimited(doc, quote + |NameText(name)|)
    ensures pos <= |doc| && quote + |NameText(name)| <= |doc|
    ensures NameLeads(c, doc, quote + |NameText(name)|, depth, ms, ReadName(c, name),
                      ParseMembers(c, doc, pos, depth, unnamed, ms))
  {
    hide HasAt, ParseMembers, ParseMember, QuotationText, NumeralText, HasKey, Delimited, NumeralWellFormed;
    hide QuotationWellFormed, ReadName, Skipped;
    SkippedBounds(c.features, doc, pos, quote, comments);
    HasAtBound(doc, quote, NameText(name));
    match name
    case Quoted(q) => QuotedParses(c, doc, pos, quote, depth, unnamed, ms, q, comments);
    case Numeric(n) => NumericParses(c, doc, pos, quote, depth, unnamed, ms, n, comments);
  }

  /** What follows from a name, or from there being none. */
  ghost predicate NameLeads(c: Config, doc: Text, end: nat, depth: nat, ms: seq<Member>, name: JsonString.Decoded,
                            p: Parsed)
    requires end <= |doc|
  {
    match name
    case Malformed(message) => FailedWith(p, message)
    case Plain(text) =>
      if |text| >= KEY_LIMIT then p.outcome == Thrown
      else if c.features.rejectDupKeys && HasKey(ms, text) then FailedWith(p, DuplicateKey)
      else p == ParseMember(c, doc, end, depth, text, ms)
  }

  lemma QuotedParses(c: Config, doc: Text, pos: nat, quote: nat, depth: nat, unnamed: bool, ms: seq<Member>,
                     q: Quotation, comments: bool)
    requires QuotationWellFormed(q) && Skipped(c.features, doc, pos, quote, comments)
    requires HasAt(doc, quote, QuotationText(q))
    ensures pos <= |doc| && quote + |QuotationText(q)| <= |doc|
    ensures NameLeads(c, doc, quote + |QuotationText(q)|, depth, ms, ReadName(c, Quoted(q)),
                      ParseMembers(c, doc, pos, depth, unnamed, ms))
  {
    hide HasAt, ParseMembers, ParseMember, NonComment, TokenAt, Recover;
    hide JsonString.Decode, QuotationMeaning, QuotationText, QuotationWellFormed, HasKey;
    StringRead(c.features, doc, quote, q);
    NameToken(c.features, doc, pos, quote, comments);
    MembersUnfold(c, doc, pos, depth, unnamed, ms);
  }

  lemma NumericParses(c: Config, doc: Text, pos: nat, quote: nat, depth: nat, unnamed: bool, ms: seq<Member>,
                      n: Numeral, comments: bool)
    requires NumeralWellFormed(n) && Skipped(c.features, doc, pos, quote, comments)
    requires HasAt(doc, quote, NumeralText(n)) && Delimited(doc, quote + |NumeralText(n)|)
    ensures pos <= |doc| && quote + |NumeralText(n)| <= |doc|
    ensures NameLeads(c, doc, quote + |NumeralText(n)|, depth, ms, ReadName(c, Numeric(n)),
                      ParseMembers(c, doc, pos, depth, unnamed, ms))
  {
    hide HasAt, ParseMembers, ParseMember, NonComment, TokenAt, Recover, Delimited;
    hide NumeralText, HasKey, NumberMeaning, JsonParser.DecodeNumber, NumeralWellFormed, NumberText, Reprinted;
    NumberRead(c, doc, quote, n);
    NumberIsNoText(c, n);
    NameToken(c.features, doc, pos, quote, comments);
    MembersUnfold(c, doc, pos, depth, unnamed, ms);
  }

  lemma NumberIsNoText(c: Config, n: Numeral)
    ensures NumberMeaning(c, n).Value? ==>
      !NumberMeaning(c, n).v.StringValue? && NumberText(c, NumberMeaning(c, n).v) == Reprinted(c, NumberMeaning(c, n).v)
  {
    hide JsonNumber.Digits, Decimal;
  }

  lemma NameToken(f: Features, doc: Text, pos: nat, quote: nat, comments: bool)
    requires Skipped(f, doc, pos, quote, comments) && TokenAt(f, doc, quote).kind != CommentToken
    ensures NonComment(f, doc, pos) == TokenAt(f, doc, quote) && pos <= |doc|
  {
    hide TokenAt;
  }

  lemma BehindMember(c: Config, doc: Text, depth: nat, name: Text, ms: seq<Member>, v: Value, end: nat, at: nat,
                     comments: bool)
    requires Skipped(c.features, doc, end, at, comments) && at < |doc| && doc[at] in {44, 125}
    ensures AfterMember(c, doc, depth, name, ms, Parsed(Success, end, v, []))
         == if doc[at] == 125 then Parsed(Success, at + 1, ObjectValue(ms), [])
            else ParseMembers(c, doc, at + 1, depth, name == [], ms)
  {
    hide ParseMembers, TokenAt;
    PunctuationBehind(c.features, doc, end, at, comments);
    if comments {
      BehindComment(c.features, doc, end);
    }
  }

  lemma BehindComment(f: Features, doc: Text, pos: nat)
    requires pos <= |doc| && ReadToken(f, doc, pos).kind == CommentToken
    ensures NonComment(f, doc, pos) == NonComment(f, doc, ReadToken(f, doc, pos).end)
  {
    hide ReadToken;
  }

  lemma MembersEnd(c: Config, doc: Text, pos: nat, depth: nat, unnamed: bool, ms: seq<Member>, trailing: bool,
                   blank: Filler, levels: int)
    requires FillerWellFormed(blank) && HasAt(doc, pos, FillerText(blank) + [125]) && (unnamed || trailing)
    ensures pos <= |doc|
    ensures Reads(ParseMembers(c, doc, pos, depth, unnamed, ms), ReadMembers(c, [], trailing, levels, unnamed, ms),
                  pos + |FillerText(blank)| + 1)
  {
    hide ParseMembers, TokenAt, NonComment, HasAt, FillerText, FillerWellFormed, HasComment, Recover, Skipped;
    BehindFiller(c.features, doc, pos, blank, [125]);
    SkippedBounds(c.features, doc, pos, pos + |FillerText(blank)|, HasComment(blank));
    PunctuationBehind(c.features, doc, pos, pos + |FillerText(blank)|, HasComment(blank));
    MembersUnfold(c, doc, pos, depth, unnamed, ms);
  }

  lemma ReadMembersStep(c: Config, members: seq<Entry>, trailing: bool, levels: int, unnamed: bool, ms: seq<Member>)
    requires members != []
    ensures var first := ReadName(c, members[0].name);
      ReadMembers(c, members, trailing, levels, unnamed, ms) ==
        if first.Malformed? then Refused(first.message)
        else if |first.text| >= KEY_LIMIT then Throws
        else if c.features.rejectDupKeys && HasKey(ms, first.text) then Refused(DuplicateKey)
        else ReadNamed(c, members, trailing, levels, first.text, ms)
  {
    hide ReadNamed, ReadName;
  }

  lemma ReadNamedStep(c: Config, members: seq<Entry>, trailing: bool, levels: int, name: Text, ms: seq<Member>)
    requires members != []
    ensures var r := ReadBehind(c, members[0].beforeValue, members[0].value, levels);
      ReadNamed(c, members, trailing, levels, name, ms) ==
        if !r.Gives? then r
        else ReadMembers(c, members[1..], trailing, levels, name == [], Put(ms, name, r.v))
  {
    hide ReadBehind, ReadMembers, Put;
  }

  lemma {:induction false} MembersParse(c: Config, doc: Text, pos: nat, depth: nat, unnamed: bool, ms: seq<Member>,
                                         members: seq<Entry>, trailing: bool, blank: Filler)
    requires MembersWellFormed(members) && FillerWellFormed(blank) && depth <= c.features.stackLimit
    requires forall k :: 0 <= k < |members| ==> members[k].comma == [44] && Commas(members[k].value)
    requires members == [] ==> unnamed || trailing
    requires HasAt(doc, pos, MembersText(members, trailing, blank))
    ensures pos <= |doc|
    ensures Reads(ParseMembers(c, doc, pos, depth, unnamed, ms),
                  ReadMembers(c, members, trailing, Levels(c, depth + 1), unnamed, ms),
                  pos + |MembersText(members, trailing, blank)|)
    decreases members, 3
  {
    hide ParseMembers, ParseMember, HasAt, SyntaxText, MembersText, ReadMembers, ReadNamed, ReadName;
    hide Grammatical, Commas, Skipped, Delimited, FillerText, NameText, HasComment, HasKey, FromColon, MembersTail;
    hide FillerWellFormed, Blank, NameWellFormed, Separates;
    if members == [] {
      NoMembersText(trailing, blank);
      MembersEnd(c, doc, pos, depth, unnamed, ms, trailing, blank, Levels(c, depth + 1));
    } else {
      var m := members[0];
      var tail := MembersTail(m.comma, members[1..], trailing, blank);
      var quote := pos + |FillerText(m.before)|;
      var behindName := quote + |NameText(m.name)|;
      FirstMember(members);
      MembersSplit(members, trailing, blank);
      NameIsThere(c.features, doc, pos, m, tail);
      NameParses(c, doc, pos, quote, depth, unnamed, ms, m.name, HasComment(m.before));
      ReadMembersStep(c, members, trailing, Levels(c, depth + 1), unnamed, ms);
      var first := ReadName(c, m.name);
      if first.Plain? && |first.text| < KEY_LIMIT && !(c.features.rejectDupKeys && HasKey(ms, first.text)) {
        MemberParses(c, doc, behindName, depth, first.text, ms, members, trailing, blank);
      }
    }
  }

  lemma NoMembersText(trailing: bool, blank: Filler)
    ensures MembersText([], trailing, blank) == FillerText(blank) + [125]
  {
  }

  lemma ColonStarts(m: Entry, tail: Text)
    ensures FromColon(m, tail) != [] && FromColon(m, tail)[0] == 58
  {
    hide SyntaxText, FillerText;
  }

  lemma NameIsThere(f: Features, doc: Text, pos: nat, m: Entry, tail: Text)
    requires FillerWellFormed(m.before) && NameWellFormed(m.name) && Blank(m.afterName)
    requires HasAt(doc, pos, FillerText(m.before) + (NameText(m.name) + (FillerText(m.afterName) + FromColon(m, tail))))
    ensures var quote := pos + |FillerText(m.before)|;
      var behindName := quote + |NameText(m.name)|;
      var colon := behindName + |FillerText(m.afterName)|;
      && Skipped(f, doc, pos, quote, HasComment(m.before)) && HasAt(doc, quote, NameText(m.name))
      && Delimited(doc, behindName)
      && Skipped(f, doc, behindName, colon, false) && colon < |doc| && doc[colon] == 58
      && HasAt(doc, colon, FromColon(m, tail))
  {
    hide HasAt, NameText, NameWellFormed, FillerText, FromColon, FillerWellFormed, Skipped, Delimited, HasComment;
    var quote := pos + |FillerText(m.before)|;
    NameStarts(m.name);
    ColonStarts(m, tail);
    var behind := FillerText(m.afterName) + FromColon(m, tail);
    assert (NameText(m.name) + behind)[0] == NameText(m.name)[0];
    BehindFiller(f, doc, pos, m.before, NameText(m.name) + behind);
    HasAtSplit(doc, quote, NameText(m.name), behind);
    BehindValue(f, doc, quote + |NameText(m.name)|, m.afterName, FromColon(m, tail));
  }

  /** A member from behind its name on, and the members that follow. */
  lemma {:induction false} MemberParses(c: Config, doc: Text, pos: nat, depth: nat, name: Text, ms: seq<Member>,
                                         members: seq<Entry>, trailing: bool, blank: Filler)
    requires members != [] && MembersWellFormed(members) && FillerWellFormed(blank) && depth <= c.features.stackLimit
    requires forall k :: 0 <= k < |members| ==> members[k].comma == [44] && Commas(members[k].value)
    requires var colon := pos + |FillerText(members[0].afterName)|;
      && Skipped(c.features, doc, pos, colon, false) && colon < |doc| && doc[colon] == 58
      && HasAt(doc, colon, FromColon(members[0], MembersTail(members[0].comma, members[1..], trailing, blank)))
    ensures pos <= |doc|
    ensures Reads(ParseMember(c, doc, pos, depth, name, ms),
                  ReadNamed(c, members, trailing, Levels(c, depth + 1), name, ms),
                  pos + |FillerText(members[0].afterName)|
                    + |FromColon(members[0], MembersTail(members[0].comma, members[1..], trailing, blank))|)
    decreases members, 2
  {
    hide ParseValue, ParseMembers, ParseMember, AfterMember, HasAt, SyntaxText, MembersText, ReadMembers, ReadNamed;
    hide Grammatical, Commas, Skipped, Delimited, FillerText, NameText, HasComment, FromColon, MembersTail, ReadBehind;
    hide FillerWellFormed, Blank, NameWellFormed, Separates, Put, ValueOf, Reads, ValueStands;
    var m, rest := members[0], members[1..];
    var tail := MembersTail(m.comma, rest, trailing, blank);
    var colon := pos + |FillerText(m.afterName)|;
    var end := colon + 1 + |FillerText(m.beforeValue)| + |SyntaxText(m.value)|;
    var at := end + |FillerText(m.behind)|;
    var levels := Levels(c, depth + 1);
    FirstMember(members);
    MembersSplit(members, trailing, blank);
    TailStarts(m.comma, rest, trailing, blank);
    ValueBehindColon(c.features, doc, colon, m, tail);
    ColonToken(c.features, doc, pos, colon);
    MemberUnfold(c, doc, pos, depth, name, ms);
    ReadNamedStep(c, members, trailing, levels, name, ms);
    var r := ParseValue(c, doc, colon + 1, depth + 1, ValueOf(ms, name));
    var reading := ReadBehind(c, m.beforeValue, m.value, levels);
    ValueParses(c, doc, colon + 1, m.beforeValue, m.value, m.behind, depth + 1, ValueOf(ms, name), tail[0]);
    if reading.Gives? {
      var ms' := Put(ms, name, reading.v);
      GivesIs(r, reading.v, end);
      StandsBehind(c.features, doc, colon + 1, m.beforeValue, m.value, m.behind, tail[0]);
      BehindMember(c, doc, depth, name, ms', reading.v, end, at, HasComment(m.behind));
      if rest == [] && !trailing {
        ObjectEnded(c, levels, name == [], ms');
        GivesIs(ParseMember(c, doc, pos, depth, name, ms), ObjectValue(ms'), at + 1);
      } else {
        MoreMembers(doc, at, rest, trailing, blank);
        MembersParse(c, doc, at + 1, depth, name == [], ms', rest, trailing, blank);
      }
    } else {
      UnreadMember(c, doc, depth, name, Put(ms, name, r.val), r, reading, end, at + |tail|);
    }
  }

  lemma ObjectEnded(c: Config, levels: int, unnamed: bool, ms: seq<Member>)
    ensures ReadMembers(c, [], false, levels, unnamed, ms) == Gives(ObjectValue(ms))
  {
  }

  lemma ColonToken(f: Features, doc: Text, pos: nat, colon: nat)
    requires Skipped(f, doc, pos, colon, false) && colon < |doc| && doc[colon] == 58
    ensures pos <= |doc| && ReadToken(f, doc, pos) == Token(MemberSeparator, colon, colon + 1)
  {
    hide TokenAt;
    PunctuationBehind(f, doc, pos, colon, false);
  }

  lemma ValueBehindColon(f: Features, doc: Text, colon: nat, m: Entry, tail: Text)
    requires FillerWellFormed(m.beforeValue) && Grammatical(m.value) && FillerWellFormed(m.behind)
    requires (m.value.Dropped? ==> m.behind == []) && tail != [] && tail[0] in {44, 125}
    requires HasAt(doc, colon, FromColon(m, tail))
    ensures ValueStands(f, doc, colon + 1, m.beforeValue, m.value, m.behind, tail[0])
    ensures HasAt(doc, colon + 1 + |FillerText(m.beforeValue)| + |SyntaxText(m.value)| + |FillerText(m.behind)|, tail)
  {
    hide HasAt, SyntaxText, Grammatical, FillerText, FillerWellFormed, ValueStands;
    HasAtSplit(doc, colon, [58], FillerText(m.beforeValue) + (SyntaxText(m.value) + (FillerText(m.behind) + tail)));
    ValueIsThere(f, doc, colon + 1, m.beforeValue, m.value, m.behind, tail);
  }

  // ----- values -----

  lemma Opens(c: Config, doc: Text, pos: nat, start: nat, depth: nat, prior: Value)
    requires Leads(c.features, doc, pos, start) && start < |doc| && doc[start] in {91, 123}
    requires depth <= c.features.stackLimit
    ensures ParseValue(c, doc, pos, depth, prior)
      == if doc[start] == 91 then ParseElements(c, doc, start + 1, depth, [])
         else ParseMembers(c, doc, start + 1, depth, true, [])
  {
    hide ParseElements, ParseMembers, SkipCommentTokens, TokenAt;
    PunctuationToken(c.features, doc, start);
    LeadsTo(c.features, doc, pos, start);
  }

  lemma TooDeep(c: Config, doc: Text, pos: nat, depth: nat, prior: Value, t: Syntax)
    requires pos <= |doc| && depth > c.features.stackLimit
    ensures ParseValue(c, doc, pos, depth, prior).outcome == Thrown && Read(c, t, Levels(c, depth)) == Throws
  {
  }

  /** Every tree whose members are separated by commas, wherever its text stands and at
      whatever depth, is read as Read says, and the cursor is left exactly behind it. */
  lemma {:induction false} TreeParses(c: Config, doc: Text, pos: nat, start: nat, depth: nat, prior: Value, t: Syntax)
    requires Grammatical(t) && Commas(t) && pos <= |doc|
    requires depth <= c.features.stackLimit ==> Leads(c.features, doc, pos, start)
    requires HasAt(doc, start, SyntaxText(t)) && Delimited(doc, start + |SyntaxText(t)|)
    requires ClosedBehind(doc, start + |SyntaxText(t)|, t)
    ensures Reads(ParseValue(c, doc, pos, depth, prior), Read(c, t, Levels(c, depth)), start + |SyntaxText(t)|)
    decreases t, 0
  {
    hide ParseValue, ParseElements, ParseMembers, HasAt, Skipped, Delimited, ElementsText, MembersText, FillerText;
    hide ReadElements, ReadMembers, FillerWellFormed, HasComment, Leads;
    if depth > c.features.stackLimit {
      TooDeep(c, doc, pos, depth, prior, t);
    } else if IsLeaf(t) {
      LeafParses(c, doc, pos, start, depth, prior, t);
    } else {
      HasAtHead(doc, start, SyntaxText(t));
      Opens(c, doc, pos, start, depth, prior);
      match t
      case ArraySyntax(elements, blank) =>
        if elements == [] {
          assert SyntaxText(t)[1..] == FillerText(blank) + [93];
          EmptyArrayParses(c, doc, start + 1, depth, blank);
          NothingRead(c, Levels(c, depth + 1), []);
        } else {
          assert SyntaxText(t)[1..] == ElementsText(elements);
          ElementsParse(c, doc, start + 1, depth, [], elements);
        }
      case ObjectSyntax(members, trailing, blank) =>
        assert SyntaxText(t)[1..] == MembersText(members, trailing, blank);
        MembersParse(c, doc, start + 1, depth, true, [], members, trailing, blank);
    }
  }

  // ----- whole documents -----

  /** The byte order mark of UTF-8. */
  const MARK: Text := [0xEF, 0xBB, 0xBF]

  /** What the reader makes of a root with its mark and what stands before it. */
  function ReadRoot(c: Config, mark: Text, before: Filler, t: Syntax): Reading {
    if c.features.stackLimit > 0 && mark != [] && !c.features.skipBom then Refused(ValueExpected)
    else ReadBehind(c, before, t, c.features.stackLimit)
  }

  /** What may end a document: nothing, or something that does not continue the root, nor the
      whitespace and comments behind it. */
  predicate TailWellFormed(t: Syntax, behind: Filler, tail: Text) {
    && (tail == [] || tail[0] in {0, 44, 58, 93, 125} || CutShort(tail))
    && (t.Dropped? ==> behind == [] && tail != [] && tail[0] in {44, 93, 125})
  }

  /** What the root text and all behind it start with. */
  lemma RootStarts(t: Syntax, behind: Filler, tail: Text)
    requires Grammatical(t) && FillerWellFormed(behind) && TailWellFormed(t, behind, tail)
    ensures var text := SyntaxText(t) + (FillerText(behind) + tail);
      text != [] && !White(text[0]) && text[0] != 0xEF && (t.Dropped? ==> text == tail)
    ensures var text := FillerText(behind) + tail;
      text != [] ==> White(text[0]) || text[0] in {0, 44, 47, 58, 93, 125}
  {
    hide Grammatical, FillerText, FillerWellFormed, SyntaxText;
    if t.Dropped? {
      NoText();
      NoFiller();
      assert SyntaxText(t) + (FillerText(behind) + tail) == tail;
    } else {
      SyntaxStarts(t);
    }
    if FillerText(behind) != [] {
      FillerStarts(behind);
    }
  }

  lemma TailSkipped(c: Config, doc: Text, end: nat, behind: Filler, tail: Text)
    requires FillerWellFormed(behind) && HasAt(doc, end, FillerText(behind) + tail)
    requires end + |FillerText(behind)| + |tail| == |doc|
    requires tail == [] || tail[0] in {0, 44, 58, 93, 125} || CutShort(tail)
    ensures end <= |doc|
    ensures var token := SkipCommentTokens(c.features, doc, end);
      && (token.kind == EndOfStream <==> NothingExtra(c, behind, tail))
      && (NothingExtra(c, behind, tail) && tail == [] ==> token.end == |doc|)
  {
    hide HasAt, FillerText, FillerWellFormed, HasComment, TokenAt, NonComment, ReadToken, CutShort;
    var at := end + |FillerText(behind)|;
    HasAtSplit(doc, end, FillerText(behind), tail);
    HasAtBound(doc, at, tail);
    if tail != [] {
      HasAtIndex(doc, at, tail, 0);
    }
    TailByteIs(tail);
    FillerSkipped(c.features, doc, end, behind);
    EndOfAll(c.features, doc);
    if tail != [] && CutShort(tail) {
      CutShortRead(c.features, doc, at, tail);
    } else {
      NoSpace(c.features, doc, at);
      if tail == [] || tail[0] == 0 {
        EndToken(c.features, doc, at);
      } else {
        TailToken(c.features, doc, at);
      }
    }
  }

  lemma TailByteIs(tail: Text)
    ensures CutShort(tail) ==> tail != [] && tail[0] == 47
  {
  }

  /** A comment that reaches the end of the document. */
  lemma CutShortRead(f: Features, doc: Text, at: nat, tail: Text)
    requires CutShort(tail) && HasAt(doc, at, tail) && at + |tail| == |doc|
    ensures ReadToken(f, doc, at).kind == CommentToken
    ensures NonComment(f, doc, at) == Token(EndOfStream, |doc|, |doc|)
  {
    assert doc[at..] == tail;
    assert forall k :: 0 <= k < |tail| ==> doc[at + k] == tail[k];
    assert SkipSpaces(doc, at) == at;
    if tail[1] == 47 {
      LineReaches(doc, at + 2);
    } else {
      StarsReach(doc, at + 2);
    }
    assert TokenAt(f, doc, at) == Token(CommentToken, at, |doc|);
    EndOfAll(f, doc);
    assert SkipSpaces(doc, |doc|) == |doc|;
    assert NonComment(f, doc, |doc|) == TokenAt(f, doc, |doc|);
  }

  lemma {:induction false} LineReaches(doc: Text, pos: nat)
    requires pos <= |doc| && forall k :: pos <= k < |doc| ==> doc[k] != 10 && doc[k] != 13
    ensures CppStyleEnd(doc, pos) == |doc|
    decreases |doc| - pos
  {
    if pos < |doc| {
      LineReaches(doc, pos + 1);
    }
  }

  lemma {:induction false} StarsReach(doc: Text, pos: nat)
    requires pos < |doc| && forall k :: pos <= k < |doc| - 1 ==> !(doc[k] == 42 && doc[k + 1] == 47)
    ensures CStyleStop(doc, pos) == |doc| - 1
    decreases |doc| - pos
  {
    if pos + 1 < |doc| {
      StarsReach(doc, pos + 1);
    }
  }

  lemma TailToken(f: Features, doc: Text, at: nat)
    requires at < |doc| && doc[at] in {0, 44, 58, 93, 125}
    ensures TokenAt(f, doc, at).kind != CommentToken && (TokenAt(f, doc, at).kind == EndOfStream <==> doc[at] == 0)
  {
  }

  lemma EndOfAll(f: Features, doc: Text)
    ensures TokenAt(f, doc, |doc|) == Token(EndOfStream, |doc|, |doc|)
  {
  }

  /** The grammar theorem. Whatever the feature flags, the reader makes of every text of the
      grammar what its tree denotes: it throws, refuses with the first error foretold, or gives
      the value; something extra and a root that strictRoot does not want are errors, and
      otherwise there is none. */
  lemma GrammarAccepted(c: Config, mark: Text, before: Filler, t: Syntax, behind: Filler, tail: Text, prior: Value)
    requires (mark == [] || mark == MARK) && FillerWellFormed(before) && Grammatical(t) && Commas(t)
    requires FillerWellFormed(behind) && TailWellFormed(t, behind, tail)
    ensures var doc := DocumentText(mark, before, t, behind, tail);
      var p := ParseDocument(c, doc, prior);
      match ReadRoot(c, mark, before, t)
      case Throws => p.outcome == Thrown
      case Refused(message) => FailedWith(p, message)
      case Gives(v) =>
        && p.val == v
        && (if c.features.failIfExtra && !NothingExtra(c, behind, tail) then FailedWith(p, ExtraAfterValue)
            else if c.features.strictRoot && !v.ArrayValue? && !v.ObjectValue? then FailedWith(p, RootMustBeContainer)
            else p.outcome == Success && p.errors == [])
        && (NothingExtra(c, behind, tail) && tail == [] ==> p.pos == |doc|)
  {
    hide ParseValue, SyntaxText, HasAt, SkipCommentTokens, Read, Grammatical, Commas, FillerText, FillerWellFormed;
    hide HasComment, ReadBehind, DocumentText, NothingExtra, Reads, ParseDocument, DocumentStart, Skipped, Delimited;
    hide ClosedBehind, TailWellFormed, FailedWith;
    var doc := DocumentText(mark, before, t, behind, tail);
    var start := |mark| + |FillerText(before)|;
    var end := start + |SyntaxText(t)|;
    TextStands(c.features, mark, before, t, behind, tail);
    MarkFound(c.features, mark, before, t, behind, tail);
    TailByte(t, behind, tail);
    TailSkipped(c, doc, end, behind, tail);
    if mark != [] && !c.features.skipBom {
      MarkRefused(c, doc, before, t, prior, end);
    } else {
      BehindParses(c, doc, |mark|, before, t, 1, prior);
    }
    DocumentCases(c, doc, ReadRoot(c, mark, before, t), end, prior);
  }

  lemma TailByte(t: Syntax, behind: Filler, tail: Text)
    requires TailWellFormed(t, behind, tail)
    ensures tail == [] || tail[0] in {0, 44, 58, 93, 125} || CutShort(tail)
  {
  }

  /** What parse adds to the root it has read. */
  lemma DocumentCases(c: Config, doc: Text, root: Reading, end: nat, prior: Value)
    requires Reads(ParseValue(c, doc, DocumentStart(c.features, doc), 1, prior), root, end) && end <= |doc|
    ensures var p := ParseDocument(c, doc, prior);
      var token := SkipCommentTokens(c.features, doc, end);
      match root
      case Throws => p.outcome == Thrown
      case Refused(message) => FailedWith(p, message)
      case Gives(v) =>
        && p.val == v && p.pos == token.end
        && (if c.features.failIfExtra && token.kind != EndOfStream then FailedWith(p, ExtraAfterValue)
            else if c.features.strictRoot && !v.ArrayValue? && !v.ObjectValue? then FailedWith(p, RootMustBeContainer)
            else p.outcome == Success && p.errors == [])
  {
    hide ParseValue, SkipCommentTokens, DocumentStart;
  }

  lemma MarkRefused(c: Config, doc: Text, before: Filler, t: Syntax, prior: Value, end: nat)
    requires doc != [] && doc[0] == 0xEF
    ensures Reads(ParseValue(c, doc, 0, 1, prior),
                  if c.features.stackLimit > 0 then Refused(ValueExpected)
                  else ReadBehind(c, before, t, c.features.stackLimit), end)
  {
    assert SkipSpaces(doc, 0) == 0;
  }

  lemma MarkFound(f: Features, mark: Text, before: Filler, t: Syntax, behind: Filler, tail: Text)
    requires (mark == [] || mark == MARK) && FillerWellFormed(before) && Grammatical(t)
    requires FillerWellFormed(behind) && TailWellFormed(t, behind, tail)
    ensures var doc := DocumentText(mark, before, t, behind, tail);
      && (mark != [] ==> doc != [] && doc[0] == 0xEF)
      && DocumentStart(f, doc) == if mark != [] && f.skipBom then 3 else 0
  {
    hide SyntaxText, Grammatical, FillerText, FillerWellFormed, TailWellFormed;
    var doc := DocumentText(mark, before, t, behind, tail);
    RootStarts(t, behind, tail);
    if mark == [] {
      if FillerText(before) != [] {
        FillerStarts(before);
      }
      if HasAt(doc, 0, BOM) {
        HasAtIndex(doc, 0, BOM, 0);
      }
    } else {
      assert doc[..3] == MARK;
    }
  }

  lemma TextStands(f: Features, mark: Text, before: Filler, t: Syntax, behind: Filler, tail: Text)
    requires FillerWellFormed(before) && Grammatical(t)
    requires FillerWellFormed(behind) && TailWellFormed(t, behind, tail)
    ensures var doc := DocumentText(mark, before, t, behind, tail);
      var start := |mark| + |FillerText(before)|;
      var end := start + |SyntaxText(t)|;
      && Skipped(f, doc, |mark|, start, HasComment(before)) && HasAt(doc, start, SyntaxText(t))
      && Delimited(doc, end) && ClosedBehind(doc, end, t)
      && HasAt(doc, end, FillerText(behind) + tail) && end + |FillerText(behind)| + |tail| == |doc|
  {
    hide SyntaxText, Grammatical, FillerText, FillerWellFormed, Skipped, HasComment, HasAt, TailWellFormed, Delimited;
    hide ClosedBehind;
    var doc := DocumentText(mark, before, t, behind, tail);
    var start := |mark| + |FillerText(before)|;
    var rest := FillerText(behind) + tail;
    Parts(mark, FillerText(before), SyntaxText(t), rest);
    RootStarts(t, behind, tail);
    FillerAndText(f, doc, |mark|, before, SyntaxText(t), rest);
    RestDelimits(doc, start + |SyntaxText(t)|, t, behind, tail);
  }

  lemma FillerAndText(f: Features, doc: Text, pos: nat, before: Filler, value: Text, rest: Text)
    requires FillerWellFormed(before) && HasAt(doc, pos, FillerText(before) + (value + rest))
    requires value + rest != [] && !White((value + rest)[0])
    ensures var start := pos + |FillerText(before)|;
      && Skipped(f, doc, pos, start, HasComment(before)) && HasAt(doc, start, value)
      && HasAt(doc, start + |value|, rest)
  {
    hide HasAt, FillerText, Skipped, HasComment, FillerWellFormed;
    BehindFiller(f, doc, pos, before, value + rest);
    HasAtSplit(doc, pos + |FillerText(before)|, value, rest);
  }

  lemma Parts(mark: Text, a: Text, b: Text, rest: Text)
    ensures var doc := mark + (a + (b + rest));
      HasAt(doc, |mark|, a + (b + rest)) && |doc| == |mark| + |a| + |b| + |rest|
  {
  }

  lemma RestDelimits(doc: Text, end: nat, t: Syntax, behind: Filler, tail: Text)
    requires Grammatical(t) && FillerWellFormed(behind) && TailWellFormed(t, behind, tail)
    requires HasAt(doc, end, FillerText(behind) + tail) && end + |FillerText(behind) + tail| == |doc|
    ensures Delimited(doc, end) && ClosedBehind(doc, end, t)
  {
    hide SyntaxText, Grammatical, FillerText, FillerWellFormed, HasAt;
    var rest := FillerText(behind) + tail;
    RootStarts(t, behind, tail);
    if rest != [] {
      HasAtIndex(doc, end, rest, 0);
    }
    if t.Dropped? {
      NoFiller();
    }
  }
}
