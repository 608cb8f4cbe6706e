/** FastWriter: the text of a value, as a function and as the method that appends it. */
module JsonWriter {
  import opened Bytes
  import opened JsonNumber
  import opened JsonValue
  import JsonString
  import Utf8

  datatype Style = Style(yamlCompatible: bool, dropNullPlaceholders: bool, omitEndingLineFeed: bool,
                         showDouble: Double -> Text)

  const NULL_TEXT: Text := [110, 117, 108, 108]
  const TRUE_TEXT: Text := [116, 114, 117, 101]
  const FALSE_TEXT: Text := [102, 97, 108, 115, 101]
  const COMMA: Text := [44]

  function Separator(st: Style): Text {
    if st.yamlCompatible then [58, 32] else [58]
  }

  function Written(st: Style, v: Value): Text
    decreases v, 0
  {
    match v
    case NullValue => if st.dropNullPlaceholders then [] else NULL_TEXT
    case IntValue(i) => IntegerText(i)
    case UIntValue(u) => IntegerText(u)
    case RealValue(d) => st.showDouble(d)
    case StringValue(s) => JsonString.Quoted(s, false)
    case BoolValue(b) => if b then TRUE_TEXT else FALSE_TEXT
    case ArrayValue(slots) => [91] + WrittenSlots(st, slots) + [93]
    case ObjectValue(members) => [123] + WrittenMembers(st, members) + [125]
  }

  /** A hole prints as the null it reads as. */
  function WrittenSlot(st: Style, s: Slot): Text
    decreases s
  {
    match s
    case Hole => if st.dropNullPlaceholders then [] else NULL_TEXT
    case Item(v) => Written(st, v)
  }

  function WrittenSlots(st: Style, slots: seq<Slot>): Text
    decreases slots, 1
  {
    if slots == [] then []
    else if |slots| == 1 then WrittenSlot(st, slots[0])
    else WrittenSlot(st, slots[0]) + COMMA + WrittenSlots(st, slots[1..])
  }

  function WrittenMember(st: Style, m: Member): Text
    decreases m
  {
    JsonString.Quoted(m.key, false) + Separator(st) + Written(st, m.val)
  }

  function WrittenMembers(st: Style, ms: seq<Member>): Text
    decreases ms, 1
  {
    if ms == [] then []
    else if |ms| == 1 then WrittenMember(st, ms[0])
    else WrittenMember(st, ms[0]) + COMMA + WrittenMembers(st, ms[1..])
  }

  function Document(st: Style, v: Value): Text {
    Written(st, v) + if st.omitEndingLineFeed then [] else [10]
  }

  lemma {:induction false} WrittenSlotsSnoc(st: Style, slots: seq<Slot>, last: Slot)
    ensures WrittenSlots(st, slots + [last])
         == WrittenSlots(st, slots) + (if slots == [] then [] else COMMA) + WrittenSlot(st, last)
  {
    if slots == [] {
      assert slots + [last] == [last];
    } else {
      WrittenSlotsSnoc(st, slots[1..], last);
      assert (slots + [last])[1..] == slots[1..] + [last];
    }
  }

  lemma {:induction false} WrittenMembersSnoc(st: Style, ms: seq<Member>, last: Member)
    ensures WrittenMembers(st, ms + [last])
         == WrittenMembers(st, ms) + (if ms == [] then [] else COMMA) + WrittenMember(st, last)
  {
    if ms == [] {
      assert ms + [last] == [last];
    } else {
      WrittenMembersSnoc(st, ms[1..], last);
      assert (ms + [last])[1..] == ms[1..] + [last];
    }
  }

  lemma NothingWritten(st: Style)
    ensures WrittenSlots(st, []) == [] && WrittenMembers(st, []) == []
  {
  }

  lemma SlotsStep(st: Style, slots: seq<Slot>, index: nat, before: Text)
    requires index < |slots|
    ensures before + WrittenSlots(st, slots[..index + 1])
         == before + WrittenSlots(st, slots[..index]) + (if index == 0 then [] else COMMA)
            + WrittenSlot(st, slots[index])
  {
    hide WrittenSlots, WrittenSlot;
    WrittenSlotsSnoc(st, slots[..index], slots[index]);
    assert slots[..index + 1] == slots[..index] + [slots[index]];
  }

  lemma MembersStep(st: Style, ms: seq<Member>, it: nat, before: Text)
    requires it < |ms|
    ensures before + WrittenMembers(st, ms[..it + 1])
         == before + WrittenMembers(st, ms[..it]) + (if it == 0 then [] else COMMA) + WrittenMember(st, ms[it])
  {
    hide WrittenMembers, WrittenMember;
    WrittenMembersSnoc(st, ms[..it], ms[it]);
    assert ms[..it + 1] == ms[..it] + [ms[it]];
  }

  /** Looking a member up by its own name finds it. */
  lemma {:induction false} ValueOfOwnKey(ms: seq<Member>, k: nat)
    requires Sorted(ms) && k < |ms|
    ensures ValueOf(ms, ms[k].key) == ms[k].val
  {
    if k > 0 {
      KeyLessTotal(ms[0].key, ms[k].key);
      SortedTail(ms);
      ValueOfOwnKey(ms[1..], k - 1);
    }
  }

  /** valueToQuotedStringN: the shortcut for harmless texts, else the escaping loop. */
  method ValueToQuotedString(value: Text, emitUtf8: bool) returns (result: Text)
    ensures result == JsonString.Quoted(value, emitUtf8)
  {
    if !JsonString.AnyRequiresEscaping(value) {
      JsonString.ShortcutAgrees(value, emitUtf8);
      return [JsonString.QUOTE] + value + [JsonString.QUOTE];
    }
    hide JsonString.QuoteBody, JsonString.QuoteStep;
    result := [JsonString.QUOTE];
    var c := 0;
    while c != |value|
      invariant 0 <= c <= |value|
      invariant result + JsonString.QuoteBody(value, c, emitUtf8)
             == [JsonString.QUOTE] + JsonString.QuoteBody(value, 0, emitUtf8)
      decreases |value| - c
    {
      var (piece, used) := JsonString.QuoteStep(value, c, emitUtf8);
      BodyUnfold(value, c, emitUtf8, result);
      result := result + piece;
      c := c + used;
    }
    BodyEnd(value, emitUtf8, result);
    result := result + [JsonString.QUOTE];
  }

  lemma BodyUnfold(value: Text, c: nat, emitUtf8: bool, before: Text)
    requires c < |value|
    ensures var (piece, used) := JsonString.QuoteStep(value, c, emitUtf8);
      before + JsonString.QuoteBody(value, c, emitUtf8)
        == before + piece + JsonString.QuoteBody(value, c + used, emitUtf8)
  {
  }

  lemma BodyEnd(value: Text, emitUtf8: bool, before: Text)
    ensures before + JsonString.QuoteBody(value, |value|, emitUtf8) == before
  {
  }

  lemma Concat3(a: Text, b: Text, c: Text, d: Text)
    ensures a + (b + c + d) == a + b + c + d
  {
  }

  lemma ObjectText(st: Style, members: seq<Member>)
    requires WellFormed(ObjectValue(members))
    ensures Sorted(members) && forall k :: 0 <= k < |members| ==> WellFormed(members[k].val)
    ensures Written(st, ObjectValue(members)) == [123] + WrittenMembers(st, members) + [125]
  {
  }

  class FastWriter {
    var document: Text
    var yamlCompatibilityEnabled: bool
    var dropNullPlaceholders: bool
    var omitEndingLineFeed: bool
    const showDouble: Double -> Text

    constructor (showDouble: Double -> Text)
      ensures document == [] && GetStyle() == Style(false, false, false, showDouble)
    {
      document := [];
      yamlCompatibilityEnabled, dropNullPlaceholders, omitEndingLineFeed := false, false, false;
      this.showDouble := showDouble;
    }

    function GetStyle(): Style
      reads this
    {
      Style(yamlCompatibilityEnabled, dropNullPlaceholders, omitEndingLineFeed, showDouble)
    }

    method Write(root: Value) returns (text: Text)
      requires WellFormed(root)
      modifies this`document
      ensures text == document == Document(GetStyle(), root)
    {
      document := [];
      WriteValue(root);
      if !omitEndingLineFeed {
        document := document + [10];
      }
      text := document;
    }

    method WriteNull()
      modifies this`document
      ensures document == old(document) + Written(GetStyle(), NullValue)
      ensures document == old(document) + if dropNullPlaceholders then [] else [110, 117, 108, 108]
    {
      if !dropNullPlaceholders {
        document := document + NULL_TEXT;
      }
    }

    method WriteValue(value: Value)
      requires WellFormed(value)
      modifies this`document
      ensures document == old(document) + Written(GetStyle(), value)
      decreases value, 0
    {
      match value
      case NullValue =>
        WriteNull();
      case IntValue(i) =>
        var text := IntToString(i as int64);
        document := document + text;
      case UIntValue(u) =>
        var text := UintToText(u as uint64);
        document := document + text;
      case RealValue(d) =>
        document := document + showDouble(d);
      case StringValue(s) =>
        var text := ValueToQuotedString(s, false);
        document := document + text;
      case BoolValue(b) =>
        document := document + (if b then TRUE_TEXT else FALSE_TEXT);
      case ArrayValue(slots) =>
        WriteArray(slots);
      case ObjectValue(members) =>
        WriteObject(members);
    }

    method WriteArray(slots: seq<Slot>)
      requires WellFormed(ArrayValue(slots))
      modifies this`document
      ensures document == old(document) + Written(GetStyle(), ArrayValue(slots))
      decreases slots, 1
    {
      hide WrittenSlots, WrittenMembers, JsonString.Quoted;
      ghost var st, before := GetStyle(), document;
      document := document + [91];
      NothingWritten(st);
      assert document == before + [91] + [];
      var size := |slots|;
      var index := 0;
      while index < size
        invariant 0 <= index <= size && GetStyle() == st
        invariant document == before + [91] + WrittenSlots(st, slots[..index])
      {
        SlotsStep(st, slots, index, before + [91]);
        if index > 0 {
          document := document + COMMA;
        }
        if slots[index].Item? {
          WriteValue(slots[index].v);
        } else {
          WriteNull();
        }
        index := index + 1;
      }
      assert slots[..size] == slots;
      document := document + [93];
      Concat3(before, [91], WrittenSlots(st, slots), [93]);
    }

    method WriteObject(members: seq<Member>)
      requires WellFormed(ObjectValue(members))
      modifies this`document
      ensures document == old(document) + Written(GetStyle(), ObjectValue(members))
      decreases members, 1
    {
      hide WrittenSlots, WrittenMembers, JsonString.Quoted, WellFormed, ValueOf, Written;
      ObjectText(GetStyle(), members);
      ghost var st, before := GetStyle(), document;
      document := document + [123];
      NothingWritten(st);
      assert document == before + [123] + [];
      var it := 0;
      while it < |members|
        invariant 0 <= it <= |members| && GetStyle() == st
        invariant document == before + [123] + WrittenMembers(st, members[..it])
      {
        MembersStep(st, members, it, before + [123]);
        var name := members[it].key;
        if it != 0 {
          document := document + COMMA;
        }
        ghost var behindComma := document;
        Concat3(behindComma, JsonString.Quoted(name, false), Separator(st), Written(st, members[it].val));
        var quoted := ValueToQuotedString(name, false);
        document := document + quoted;
        document := document + (if yamlCompatibilityEnabled then [58, 32] else [58]);
        ValueOfOwnKey(members, it);
        var member := ValueOf(members, name);
        assert member == members[it].val && members[it] in members;
        WriteValue(member);
        it := it + 1;
      }
      assert members[..|members|] == members;
      document := document + [125];
      Concat3(before, [123], WrittenMembers(st, members), [125]);
    }
  }
}
