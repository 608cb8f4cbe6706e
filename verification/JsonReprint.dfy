/** What the parser can build at all, and printing what was parsed. */
module JsonReprint {
  import opened Bytes
  import opened JsonGrammar
  import opened JsonLexer
  import opened JsonNumber
  import opened JsonParser
  import opened JsonRoundTrip
  import opened JsonValue
  import JsonWriter
  import Utf8

  /** A value as the parser builds them: nested at most `levels` deep, members strictly sorted
      with short keys, no holes, integers in range and unsigned only where they must be. */
  predicate Built(v: Value, levels: int) {
    levels > 0 &&
    match v
    case IntValue(i) => MIN_LARGEST_INT <= i <= MAX_LARGEST_INT
    case UIntValue(u) => MAX_LARGEST_INT < u <= MAX_LARGEST_UINT
    case ArrayValue(slots) => forall k :: 0 <= k < |slots| ==> slots[k].Item? && Built(slots[k].v, levels - 1)
    case ObjectValue(ms) =>
      Sorted(ms) && forall k :: 0 <= k < |ms| ==> |ms[k].key| < KEY_LIMIT && Built(ms[k].val, levels - 1)
    case _ => true
  }

  predicate BuiltMembers(ms: seq<Member>, levels: int) {
    Sorted(ms) && forall m :: m in ms ==> |m.key| < KEY_LIMIT && Built(m.val, levels)
  }

  predicate BuiltSlots(slots: seq<Slot>, levels: int) {
    forall k :: 0 <= k < |slots| ==> slots[k].Item? && Built(slots[k].v, levels)
  }

  lemma ObjectBuilt(ms: seq<Member>, levels: int)
    requires levels > 0
    ensures Built(ObjectValue(ms), levels) <==> BuiltMembers(ms, levels - 1)
  {
    assert forall k :: 0 <= k < |ms| ==> ms[k] in ms;
  }

  lemma PutBuilt(ms: seq<Member>, key: Text, v: Value, levels: int)
    requires BuiltMembers(ms, levels) && |key| < KEY_LIMIT && Built(v, levels)
    ensures BuiltMembers(Put(ms, key, v), levels)
  {
    hide Built, Put;
    PutIsUpdate(ms, key, v);
  }

  lemma {:induction false} ValueOfBuilt(ms: seq<Member>, key: Text, levels: int)
    requires BuiltMembers(ms, levels) && levels > 0
    ensures Built(ValueOf(ms, key), levels)
  {
    if ms != [] && ms[0].key != key {
      SortedTail(ms);
      ValueOfBuilt(ms[1..], key, levels);
    }
  }

  lemma LeafBuilt(c: Config, doc: Text, t: Token, prior: Value, levels: int)
    requires t.start <= t.end <= |doc| && (t.kind == StringToken ==> t.start + 2 <= t.end)
    requires OneChar(t.kind) ==> t.end == t.start + 1
    requires levels > 0 && Built(prior, levels)
    ensures Built(Leaf(c, doc, t, prior).val, levels)
  {
  }

  // ----- everything the parser builds -----

  lemma {:induction false} ValueBuilt(c: Config, doc: Text, pos: nat, depth: nat, prior: Value)
    requires pos <= |doc| && (depth <= c.features.stackLimit ==> Built(prior, Levels(c, depth)))
    ensures var p := ParseValue(c, doc, pos, depth, prior);
      p.outcome != Thrown ==> Built(p.val, Levels(c, depth))
    decreases |doc| - pos, 0
  {
    hide ParseMembers, ParseElements, Leaf, SkipCommentTokens, Built;
    if depth <= c.features.stackLimit {
      var t := SkipCommentTokens(c.features, doc, pos);
      if t.kind == ObjectBegin {
        MembersBuilt(c, doc, t.end, depth, true, []);
      } else if t.kind == ArrayBegin {
        ElementsBuilt(c, doc, t.end, depth, []);
      } else {
        LeafBuilt(c, doc, t, prior, Levels(c, depth));
      }
    }
  }

  lemma {:induction false} MembersBuilt(c: Config, doc: Text, pos: nat, depth: nat, unnamed: bool, ms: seq<Member>)
    requires pos <= |doc| && depth <= c.features.stackLimit && BuiltMembers(ms, Levels(c, depth) - 1)
    ensures var p := ParseMembers(c, doc, pos, depth, unnamed, ms);
      p.outcome != Thrown ==> Built(p.val, Levels(c, depth))
    decreases |doc| - pos, 3
  {
    hide ParseMembers, ParseNamed, NonComment, Built, BuiltMembers, JsonParser.DecodeNumber, JsonParser.DecodeString;
    ObjectBuilt(ms, Levels(c, depth));
    JsonParser.MembersUnfold(c, doc, pos, depth, unnamed, ms);
    var t := NonComment(c.features, doc, pos);
    if t.kind == StringToken {
      NamedBuilt(c, doc, t, depth, JsonParser.DecodeString(doc, t), ms);
    } else if t.kind == NumberToken && c.features.allowNumericKeys {
      NamedBuilt(c, doc, t, depth, JsonParser.DecodeNumber(c, doc, t), ms);
    }
  }

  lemma {:induction false} NamedBuilt(c: Config, doc: Text, t: Token, depth: nat, decoded: Decoded, ms: seq<Member>)
    requires t.start < t.end <= |doc| && depth <= c.features.stackLimit && BuiltMembers(ms, Levels(c, depth) - 1)
    ensures var p := ParseNamed(c, doc, t, depth, decoded, ms);
      p.outcome != Thrown ==> Built(p.val, Levels(c, depth))
    decreases |doc| - t.end, 5
  {
    hide ParseMember, NameOf, Built, BuiltMembers, HasKey, Recover;
    ObjectBuilt(ms, Levels(c, depth));
    if decoded.Value? && |NameOf(c, decoded.v)| < KEY_LIMIT {
      MemberBuilt(c, doc, t.end, depth, NameOf(c, decoded.v), ms);
    }
  }

  lemma {:induction false} MemberBuilt(c: Config, doc: Text, pos: nat, depth: nat, name: Text, ms: seq<Member>)
    requires pos <= |doc| && depth <= c.features.stackLimit && BuiltMembers(ms, Levels(c, depth) - 1)
    requires |name| < KEY_LIMIT
    ensures var p := ParseMember(c, doc, pos, depth, name, ms);
      p.outcome != Thrown ==> Built(p.val, Levels(c, depth))
    decreases |doc| - pos, 4
  {
    hide ParseMember, ParseValue, AfterMember, Built, BuiltMembers, ReadToken, Put, ValueOf;
    ObjectBuilt(ms, Levels(c, depth));
    MemberUnfold(c, doc, pos, depth, name, ms);
    var colon := ReadToken(c.features, doc, pos);
    if colon.kind == MemberSeparator {
      if depth + 1 <= c.features.stackLimit {
        ValueOfBuilt(ms, name, Levels(c, depth) - 1);
      }
      ValueBuilt(c, doc, colon.end, depth + 1, ValueOf(ms, name));
      var r := ParseValue(c, doc, colon.end, depth + 1, ValueOf(ms, name));
      if r.outcome != Thrown {
        PutBuilt(ms, name, r.val, Levels(c, depth) - 1);
      }
      AfterMemberBuilt(c, doc, depth, name, Put(ms, name, r.val), r);
    }
  }

  lemma {:induction false} AfterMemberBuilt(c: Config, doc: Text, depth: nat, name: Text, ms: seq<Member>, r: Parsed)
    requires r.pos <= |doc| && depth <= c.features.stackLimit
    requires r.outcome == Failed ==> r.errors != []
    requires r.outcome != Thrown ==> BuiltMembers(ms, Levels(c, depth) - 1)
    ensures var p := AfterMember(c, doc, depth, name, ms, r);
      p.outcome != Thrown ==> Built(p.val, Levels(c, depth))
    decreases |doc| - r.pos, 2
  {
    hide ParseMembers, Built, BuiltMembers, ReadToken, NonComment, Recover;
    ObjectBuilt(ms, Levels(c, depth));
    if r.outcome == Success {
      var comma := ReadToken(c.features, doc, r.pos);
      var last := if comma.kind == CommentToken then NonComment(c.features, doc, comma.end) else comma;
      if (comma.kind == ArraySeparator || comma.kind == CommentToken) && last.kind != ObjectEnd {
        MembersBuilt(c, doc, last.end, depth, name == [], ms);
      }
    }
  }

  lemma {:induction false} ElementsBuilt(c: Config, doc: Text, pos: nat, depth: nat, slots: seq<Slot>)
    requires pos <= |doc| && depth <= c.features.stackLimit && BuiltSlots(slots, Levels(c, depth) - 1)
    ensures var p := ParseElements(c, doc, pos, depth, slots);
      p.outcome != Thrown ==> Built(p.val, Levels(c, depth))
    decreases |doc| - pos, 3
  {
    hide ParseElements, ParseValue, AfterElement, SkipSpaces;
    ElementsUnfold(c, doc, pos, depth, slots);
    var start := SkipSpaces(doc, pos);
    ValueBuilt(c, doc, start, depth + 1, NullValue);
    var r := ParseValue(c, doc, start, depth + 1, NullValue);
    AfterElementBuilt(c, doc, depth, slots + [Item(r.val)], r);
  }

  lemma {:induction false} AfterElementBuilt(c: Config, doc: Text, depth: nat, slots: seq<Slot>, r: Parsed)
    requires r.pos <= |doc| && depth <= c.features.stackLimit
    requires r.outcome == Failed ==> r.errors != []
    requires r.outcome != Thrown ==> BuiltSlots(slots, Levels(c, depth) - 1)
    ensures var p := AfterElement(c, doc, depth, slots, r);
      p.outcome != Thrown ==> Built(p.val, Levels(c, depth))
    decreases |doc| - r.pos, 2
  {
    hide ParseElements, NonComment, Recover;
    if r.outcome == Success {
      var t := NonComment(c.features, doc, r.pos);
      if t.kind == ArraySeparator {
        ElementsBuilt(c, doc, t.end, depth, slots);
      }
    }
  }

  /** Whatever the document and the features, a value that the parser returns is sorted, in
      range, without holes, and nested within the stack limit. */
  lemma DocumentBuilt(c: Config, doc: Text, prior: Value)
    requires c.features.stackLimit > 0 ==> Built(prior, c.features.stackLimit)
    ensures var p := ParseDocument(c, doc, prior);
      p.outcome != Thrown ==> Built(p.val, c.features.stackLimit)
  {
    hide ParseValue, Built;
    ValueBuilt(c, doc, DocumentStart(c.features, doc), 1, prior);
  }

  // ----- printing what was parsed -----

  /** Every text and key is well-formed UTF-8. */
  predicate TextsValid(v: Value) {
    match v
    case StringValue(s) => Utf8.Valid(s)
    case ArrayValue(slots) => forall k :: 0 <= k < |slots| && slots[k].Item? ==> TextsValid(slots[k].v)
    case ObjectValue(ms) => forall k :: 0 <= k < |ms| ==> Utf8.Valid(ms[k].key) && TextsValid(ms[k].val)
    case _ => true
  }

  /** No key grows beyond the limit when the printer repairs it. */
  predicate KeysFit(v: Value) {
    match v
    case ArrayValue(slots) => forall k :: 0 <= k < |slots| && slots[k].Item? ==> KeysFit(slots[k].v)
    case ObjectValue(ms) =>
      forall k :: 0 <= k < |ms| ==> |Utf8.Repair(ms[k].key)| < KEY_LIMIT && KeysFit(ms[k].val)
    case _ => true
  }

  lemma {:induction false} BuiltMeans(v: Value, levels: int)
    requires Built(v, levels)
    ensures WellFormed(v) && (Faithful(v) <==> TextsValid(v))
    ensures KeysFit(v) <==> Fits(v, levels)
  {
    match v
    case ArrayValue(slots) =>
      forall k | 0 <= k < |slots|
        ensures WellFormed(slots[k].v) && (Faithful(slots[k].v) <==> TextsValid(slots[k].v))
        ensures KeysFit(slots[k].v) <==> Fits(slots[k].v, levels - 1)
      {
        BuiltMeans(slots[k].v, levels - 1);
      }
    case ObjectValue(ms) =>
      forall k | 0 <= k < |ms|
        ensures WellFormed(ms[k].val) && (Faithful(ms[k].val) <==> TextsValid(ms[k].val))
        ensures KeysFit(ms[k].val) <==> Fits(ms[k].val, levels - 1)
      {
        BuiltMeans(ms[k].val, levels - 1);
      }
    case _ =>
  }

  lemma RootIsContainer(c: Config, doc: Text, prior: Value)
    ensures var p := ParseDocument(c, doc, prior);
      p.outcome == Success && c.features.strictRoot ==> p.val.ArrayValue? || p.val.ObjectValue?
  {
    hide ParseValue, SkipCommentTokens;
  }

  /** A document that parses to reals that survive as text, if any, can be printed and parsed again exactly if no
      key grows too long or, where duplicates are rejected, collides with another when it is
      repaired: the result is its canonical form, and the same value exactly if all its
      texts are well-formed. */
  lemma Reprint(c: Config, st: JsonWriter.Style, doc: Text, prior: Value)
    requires Built(prior, c.features.stackLimit) && !st.dropNullPlaceholders
    ensures var p := ParseDocument(c, doc, prior);
      p.outcome == Success && RealsShown(c, st, p.val) ==>
        var again := ParseDocument(c, JsonWriter.Document(st, p.val), prior);
        && (again.outcome == Success <==> KeysFit(p.val) && NoDuplicates(c, p.val))
        && (again.outcome == Success ==>
              && again.errors == [] && again.val == Canonical(p.val)
              && (again.val == p.val <==> TextsValid(p.val)))
  {
    hide ParseDocument, JsonWriter.Document, Built, Fits, Canonical, WellFormed, RealsShown, NoDuplicates, KeysFit;
    var p := ParseDocument(c, doc, prior);
    if p.outcome == Success && RealsShown(c, st, p.val) {
      DocumentBuilt(c, doc, prior);
      BuiltMeans(p.val, c.features.stackLimit);
      RootIsContainer(c, doc, prior);
      DocumentRoundTrip(c, st, p.val, prior);
      CanonicalExact(p.val);
    }
  }

  // ----- the second round -----

  ghost predicate MemberSettled(c: Config, st: JsonWriter.Style, m: Member, levels: int) {
    |Utf8.Repair(m.key)| < KEY_LIMIT && Fits(m.val, levels) && RealsShown(c, st, m.val)
  }

  lemma {:induction false} CanonicalKeeps(c: Config, st: JsonWriter.Style, v: Value, levels: int)
    requires Fits(v, levels) && RealsShown(c, st, v)
    ensures Fits(Canonical(v), levels) && RealsShown(c, st, Canonical(v))
    decreases v, 0
  {
    match v
    case ArrayValue(slots) =>
      CanonicalSlotsAt(slots);
      forall k | 0 <= k < |slots|
        ensures CanonicalSlots(slots)[k].Item?
        ensures Fits(CanonicalSlots(slots)[k].v, levels - 1) && RealsShown(c, st, CanonicalSlots(slots)[k].v)
      {
        if slots[k].Item? {
          CanonicalKeeps(c, st, slots[k].v, levels - 1);
        }
      }
    case ObjectValue(ms) =>
      CanonicalMembersKeep(c, st, ms, [], levels - 1);
      var result := CanonicalMembers(ms, []);
      assert forall k :: 0 <= k < |result| ==> result[k] in result;
    case _ =>
  }

  lemma {:induction false} CanonicalMembersKeep(c: Config, st: JsonWriter.Style, ms: seq<Member>, acc: seq<Member>,
                                                 levels: int)
    requires Sorted(acc) && forall m :: m in acc ==> MemberSettled(c, st, m, levels)
    requires forall k :: 0 <= k < |ms| ==> MemberSettled(c, st, ms[k], levels)
    ensures forall m :: m in CanonicalMembers(ms, acc) ==> MemberSettled(c, st, m, levels)
    decreases ms, 1
  {
    if ms != [] {
      var key, v := Utf8.Repair(ms[0].key), Canonical(ms[0].val);
      Utf8.RepairExact(ms[0].key);
      Utf8.RepairExact(key);
      CanonicalKeeps(c, st, ms[0].val, levels);
      PutIsUpdate(acc, key, v);
      CanonicalMembersKeep(c, st, ms[1..], Put(acc, key, v), levels);
    }
  }

  /** After one round of printing and parsing nothing changes any more, whether the root is
      allowed or not. */
  lemma SecondRound(c: Config, st: JsonWriter.Style, v: Value, prior: Value)
    requires Readable(c, st, v) && !st.dropNullPlaceholders
    ensures var once := ParseDocument(c, JsonWriter.Document(st, v), prior);
      Fits(v, c.features.stackLimit) && NoDuplicates(c, v) ==>
        var twice := ParseDocument(c, JsonWriter.Document(st, once.val), prior);
        twice.outcome == once.outcome && twice.val == once.val
  {
    hide ParseDocument, JsonWriter.Document, Fits, Canonical, WellFormed, RealsShown, KeysStayApart, Faithful;
    if Fits(v, c.features.stackLimit) && NoDuplicates(c, v) {
      DocumentRoundTrip(c, st, v, prior);
      CanonicalSettles(v);
      CanonicalKeeps(c, st, v, c.features.stackLimit);
      CanonicalKind(v);
      FaithfulApart(Canonical(v));
      CanonicalIdempotent(v);
      DocumentRoundTrip(c, st, Canonical(v), prior);
    }
  }
}
