/** OurReader: the cursor, the node stack and the error list, and the methods that
    advance them. Each method does what its function in JsonLexer or JsonParser says.
    A node is a value under construction; when a node is popped it is written back
    into its parent, which is what writing through the original's pointer amounts to. */
module JsonReader {
  import opened Bytes
  import opened JsonErrors
  import opened JsonValue
  import D = JsonDerives
  import L = JsonLexer
  import N = JsonNumber
  import P = JsonParser
  import S = JsonString
  import Utf8

  lemma BracketToken(f: L.Features, doc: Text, pos: nat)
    requires pos < |doc| && doc[pos] == 93
    ensures L.ReadToken(f, doc, pos) == L.Token(L.ArrayEnd, pos, pos + 1)
  {
  }

  class OurReader {
    const config: P.Config
    var document: Text
    var begin: nat
    var current: nat
    var nodes: seq<Value>
    var errors: seq<ErrorInfo>

    constructor (config: P.Config)
      ensures this.config == config && Valid() && nodes == [] && errors == []
    {
      this.config := config;
      document, begin, current, nodes, errors := [], 0, 0, [], [];
    }

    /** The cursor is inside the document. */
    ghost predicate Valid()
      reads this
    {
      begin <= current <= |document|
    }

    // ----- characters -----

    method GetNextChar() returns (c: Byte)
      requires Valid()
      modifies this`current
      ensures Valid()
      ensures c == L.CharAt(document, old(current)) && current == L.Advance(document, old(current))
    {
      if current == |document| {
        return 0;
      }
      c := document[current];
      current := current + 1;
    }

    method SkipSpaces()
      requires Valid()
      modifies this`current
      ensures Valid() && current == L.SkipSpaces(document, old(current))
    {
      while current != |document|
        invariant Valid() && L.SkipSpaces(document, current) == L.SkipSpaces(document, old(current))
        decreases |document| - current
      {
        if L.IsSpace(document[current]) {
          current := current + 1;
        } else {
          break;
        }
      }
    }

    method SkipBom(skipBom: bool)
      requires Valid() && begin == current == 0
      modifies this`begin, this`current
      ensures Valid() && begin == current
      ensures current == if skipBom && HasAt(document, 0, P.BOM) then 3 else 0
    {
      if skipBom && |document| - begin >= 3 && document[begin..begin + 3] == P.BOM {
        begin := begin + 3;
        current := begin;
      }
    }

    method Match(pattern: Text) returns (ok: bool)
      requires Valid()
      modifies this`current
      ensures Valid() && ok == HasAt(document, old(current), pattern)
      ensures current == if ok then old(current) + |pattern| else old(current)
    {
      if |document| - current < |pattern| {
        return false;
      }
      var index := |pattern|;
      while index > 0
        invariant 0 <= index <= |pattern|
        invariant forall k :: index <= k < |pattern| ==> document[current + k] == pattern[k]
      {
        index := index - 1;
        if document[current + index] != pattern[index] {
          assert document[current..current + |pattern|][index] != pattern[index];
          return false;
        }
      }
      assert document[current..current + |pattern|] == pattern;
      current := current + |pattern|;
      return true;
    }

    // ----- tokens -----

    method ReadCStyleComment() returns (ok: bool)
      requires Valid()
      modifies this`current
      ensures Valid()
      ensures var stop := L.CStyleStop(document, old(current));
        ok == (L.CharAt(document, stop) == 47) && current == L.Advance(document, stop)
    {
      while current + 1 < |document|
        invariant Valid() && L.CStyleStop(document, current) == L.CStyleStop(document, old(current))
        decreases |document| - current
      {
        var c := GetNextChar();
        if c == 42 && document[current] == 47 {
          var slash := GetNextChar();
          return slash == 47;
        }
      }
      var c := GetNextChar();
      ok := c == 47;
    }

    method ReadCppStyleComment() returns (ok: bool)
      requires Valid()
      modifies this`current
      ensures Valid() && ok && current == L.CppStyleEnd(document, old(current))
    {
      while current != |document|
        invariant Valid() && L.CppStyleEnd(document, current) == L.CppStyleEnd(document, old(current))
        decreases |document| - current
      {
        var c := GetNextChar();
        if c == 10 {
          return true;
        }
        if c == 13 {
          if current != |document| && document[current] == 10 {
            var _ := GetNextChar();
          }
          return true;
        }
      }
      return true;
    }

    method ReadComment() returns (ok: bool)
      requires Valid()
      modifies this`current
      ensures Valid() && (ok, current) == L.ReadComment(document, old(current))
    {
      var c := GetNextChar();
      ok := false;
      if c == 42 {
        ok := ReadCStyleComment();
      } else if c == 47 {
        ok := ReadCppStyleComment();
      }
    }

    /** The digit loops of readNumber: `p` runs one ahead of the cursor, `c` is the
        character in between. */
    method SkipDigits(start: nat) returns (c: Byte, p: nat)
      requires Valid() && begin <= start <= |document|
      modifies this`current
      ensures Valid() && current == L.DigitsEnd(document, start)
      ensures c == L.CharAt(document, current) && p == L.Advance(document, current)
    {
      c, p := 48, start; // a digit stands for what is consumed already
      while N.IsDigit(c)
        invariant start <= p <= |document| && Valid()
        invariant if N.IsDigit(c) then L.DigitsEnd(document, p) == L.DigitsEnd(document, start)
          else current == L.DigitsEnd(document, start) && c == L.CharAt(document, current)
               && p == L.Advance(document, current)
        decreases |document| - p, if N.IsDigit(c) then 1 else 0
      {
        current := p;
        if current < |document| {
          c := document[p];
          p := p + 1;
        } else {
          c := 0;
        }
      }
    }

    method ReadNumber(checkInf: bool) returns (ok: bool)
      requires Valid()
      modifies this`current
      ensures Valid() && ok == !(checkInf && L.CharAt(document, old(current)) == 73)
      ensures current == if ok then L.NumberEnd(document, old(current)) else old(current) + 1
    {
      hide L.DigitsEnd;
      var p := current;
      if checkInf && p != |document| && document[p] == 73 {
        current := p + 1;
        return false;
      }
      var c: Byte;
      c, p := SkipDigits(p);
      if c == 46 {
        c, p := SkipDigits(p);
      }
      if c == 101 || c == 69 {
        current := p;
        var sign := L.CharAt(document, p);
        if sign == 43 || sign == 45 {
          p := p + 1;
        }
        c, p := SkipDigits(p);
      }
      return true;
    }

    /** readString and readStringSingleQuote. */
    method ReadString(quote: Byte) returns (ok: bool)
      requires Valid() && quote != S.BACKSLASH && quote != 0
      modifies this`current
      ensures Valid() && (ok, current) == S.Scan(document, old(current), quote)
    {
      var c: Byte := 0;
      while current != |document|
        invariant Valid() && c != quote
        invariant S.Scan(document, current, quote) == S.Scan(document, old(current), quote)
        decreases |document| - current
      {
        c := GetNextChar();
        if c == S.BACKSLASH {
          var _ := GetNextChar();
        } else if c == quote {
          break;
        }
      }
      ok := c == quote;
    }

    /** readToken; it returned true where the kind is not ErrorToken. */
    method ReadToken() returns (token: L.Token)
      requires Valid()
      modifies this`current
      ensures Valid() && token == L.ReadToken(config.features, document, old(current))
      ensures current == token.end
    {
      SkipSpaces();
      var start := current;
      var c := GetNextChar();
      var kind: L.Kind;
      var ok := true;
      if c == 123 {
        kind := L.ObjectBegin;
      } else if c == 125 {
        kind := L.ObjectEnd;
      } else if c == 91 {
        kind := L.ArrayBegin;
      } else if c == 93 {
        kind := L.ArrayEnd;
      } else if c == 34 {
        kind := L.StringToken;
        ok := ReadString(34);
      } else if c == 39 && config.features.allowSingleQuotes {
        kind := L.StringToken;
        ok := ReadString(39);
      } else if c == 47 {
        kind := L.CommentToken;
        ok := ReadComment();
      } else if N.IsDigit(c) {
        kind := L.NumberToken;
        var _ := ReadNumber(false);
      } else {
        kind, ok := ReadWord(c, start);
      }
      if !ok {
        kind := L.ErrorToken;
      }
      token := L.Token(kind, start, current);
    }

    /** The cases of readToken from the signs on. */
    method ReadWord(c: Byte, start: nat) returns (kind: L.Kind, ok: bool)
      requires Valid() && start <= |document| && c == L.CharAt(document, start)
      requires current == L.Advance(document, start)
      requires c !in {123, 125, 91, 93, 34, 47} && (c == 39 ==> !config.features.allowSingleQuotes) && !N.IsDigit(c)
      modifies this`current
      ensures Valid()
      ensures L.TokenAt(config.features, document, start)
           == L.Token(if ok then kind else L.ErrorToken, start, current)
    {
      ok := true;
      if c == 45 || c == 43 {
        var number := ReadNumber(true);
        if number {
          kind := L.NumberToken;
        } else {
          kind := if c == 45 then L.NegInfToken else L.PosInfToken;
          ok := config.features.allowSpecialFloats;
          if ok {
            ok := Match(L.NFINITY);
          }
        }
      } else if c == 116 {
        kind := L.TrueToken;
        ok := Match(L.RUE);
      } else if c == 102 {
        kind := L.FalseToken;
        ok := Match(L.ALSE);
      } else if c == 110 {
        kind := L.NullToken;
        ok := Match(L.ULL);
      } else if c == 78 && config.features.allowSpecialFloats {
        kind := L.NaNToken;
        ok := Match(L.AN);
      } else if c == 73 && config.features.allowSpecialFloats {
        kind := L.PosInfToken;
        ok := Match(L.NFINITY);
      } else if c == 44 {
        kind := L.ArraySeparator;
      } else if c == 58 {
        kind := L.MemberSeparator;
      } else if c == 0 {
        kind := L.EndOfStream;
      } else {
        kind, ok := L.ErrorToken, false;
      }
    }

    /** The loops over comment tokens in readObject and readArray. */
    method ReadNonComment() returns (token: L.Token)
      requires Valid()
      modifies this`current
      ensures Valid() && token == L.NonComment(config.features, document, old(current))
      ensures current == token.end
    {
      token := ReadToken();
      while token.kind == L.CommentToken
        invariant Valid() && current == token.end
        invariant (if token.kind == L.CommentToken then L.NonComment(config.features, document, current) else token)
               == L.NonComment(config.features, document, old(current))
        invariant token.kind == L.CommentToken ==> token.start < token.end
        decreases |document| - current, if token.kind == L.CommentToken then 1 else 0
      {
        token := ReadToken();
      }
    }

    method SkipCommentTokens() returns (token: L.Token)
      requires Valid()
      modifies this`current
      ensures Valid() && token == L.SkipCommentTokens(config.features, document, old(current))
      ensures current == token.end
    {
      if config.features.allowComments {
        token := ReadNonComment();
      } else {
        token := ReadToken();
      }
    }

    // ----- errors -----

    method AddError(message: Message, token: L.Token)
      modifies this`errors
      ensures errors == old(errors) + [ErrorInfo(token.start, token.end, message)]
    {
      errors := errors + [ErrorInfo(token.start, token.end, message)];
    }

    method RecoverFromError(until: L.Kind)
      requires Valid()
      modifies this`current, this`errors
      ensures Valid() && errors == old(errors)
      ensures current == L.Recover(config.features, document, old(current), until)
    {
      var errorCount := |errors|;
      while true
        invariant Valid() && errors == old(errors)
        invariant L.Recover(config.features, document, current, until)
               == L.Recover(config.features, document, old(current), until)
        decreases |document| - current
      {
        var skip := ReadToken();
        if skip.kind == L.ErrorToken {
          errors := errors[..errorCount];
        }
        if skip.kind == until || skip.kind == L.EndOfStream {
          break;
        }
      }
      errors := errors[..errorCount];
    }

    method AddErrorAndRecover(message: Message, token: L.Token, until: L.Kind)
      requires Valid()
      modifies this`current, this`errors
      ensures Valid() && errors == old(errors) + [ErrorInfo(token.start, token.end, message)]
      ensures current == L.Recover(config.features, document, old(current), until)
    {
      AddError(message, token);
      RecoverFromError(until);
    }

    // ----- decoding tokens -----

    /** decodeNumber; a rejected token is recorded as an error. */
    method DecodeNumber(token: L.Token) returns (decoded: P.Decoded)
      requires token.start < token.end <= |document|
      modifies this`errors
      ensures decoded == P.DecodeNumber(config, document, token)
      ensures errors == old(errors)
            + if decoded.Rejected? then [ErrorInfo(token.start, token.end, decoded.message)] else []
    {
      var text := document[token.start..token.end];
      var integer := N.DecodeNumber(text);
      match integer
      case Signed(i) => decoded := P.Decoded.Value(IntValue(i));
      case Unsigned(u) => decoded := P.Decoded.Value(UIntValue(u));
      case Fallback =>
        decoded := P.DecodeDouble(config, text);
        if decoded.Rejected? {
          AddError(decoded.message, token);
        }
    }

    /** decodeUnicodeEscapeSequence, the digits one by one. */
    method DecodeUnicodeEscapeSequence(cur: nat, end: nat) returns (r: S.Escape)
      requires cur <= end <= |document|
      ensures r == S.FourHexDigits(document, cur, end)
    {
      if end - cur < 4 {
        return S.Bad(FourDigitsExpected);
      }
      var unicode, index := 0, 0;
      while index < 4
        invariant 0 <= index <= 4
        invariant unicode == HexPrefix(document, cur, index) >= 0
      {
        assert index == 0 || index == 1 || index == 2 || index == 3;
        var digit := S.HexValue(document[cur + index]);
        if digit < 0 {
          return S.Bad(HexDigitExpected);
        }
        unicode := unicode * 16 + digit;
        index := index + 1;
      }
      HexPrefixOfFour(document, cur, end);
      r := S.Got(unicode, cur + 4);
    }

    /** The value of the first `n` hexadecimal digits, -1 when one of them is none. */
    static function HexPrefix(doc: Text, cur: nat, n: nat): (v: int)
      requires cur + n <= |doc|
    {
      if n == 0 then 0 else
      var front, digit := HexPrefix(doc, cur, n - 1), S.HexValue(doc[cur + n - 1]);
      if front < 0 || digit < 0 then -1 else front * 16 + digit
    }

    static lemma HexPrefixOfFour(doc: Text, cur: nat, end: nat)
      requires cur + 4 <= end <= |doc| && HexPrefix(doc, cur, 4) >= 0
      ensures S.FourHexDigits(doc, cur, end) == S.Got(HexPrefix(doc, cur, 4), cur + 4)
    {
      assert HexPrefix(doc, cur, 1) == S.HexValue(doc[cur]);
      assert HexPrefix(doc, cur, 2) == HexPrefix(doc, cur, 1) * 16 + S.HexValue(doc[cur + 1]);
    }

    method DecodeUnicodeCodePoint(cur: nat, end: nat) returns (r: S.Escape)
      requires cur <= end <= |document|
      ensures r == S.CodePointEscape(document, cur, end)
    {
      r := DecodeUnicodeEscapeSequence(cur, end);
      if r.Got? && 0xD800 <= r.value <= 0xDBFF {
        if end - r.next < 6 {
          return S.Bad(SixMoreExpected);
        }
        if document[r.next] == S.BACKSLASH && document[r.next + 1] == 117 {
          var low := DecodeUnicodeEscapeSequence(r.next + 2, end);
          if low.Bad? {
            return low;
          }
          r := S.Got(0x10000 + r.value % 1024 * 1024 + low.value % 1024, low.next);
        } else {
          return S.Bad(SecondHalfExpected);
        }
      }
    }

    /** decodeString; a malformed token is recorded as an error. */
    method DecodeString(token: L.Token) returns (decoded: P.Decoded)
      requires token.start + 2 <= token.end <= |document|
      modifies this`errors
      ensures decoded == P.DecodeString(document, token)
      ensures errors == old(errors)
            + if decoded.Rejected? then [ErrorInfo(token.start, token.end, decoded.message)] else []
    {
      var text: Text := [];
      var cur: nat, end: nat := token.start + 1, token.end - 1;
      ghost var whole := S.Decode(document, token.start, token.end);
      while cur != end
        invariant cur <= end && errors == old(errors)
        invariant S.DecodeFrom(document, cur, end, text) == whole
        decreases end - cur
      {
        var c := document[cur];
        if c == S.QUOTE {
          break;
        }
        if c == S.BACKSLASH {
          if cur + 1 == end {
            AddError(EmptyEscape, token);
            return P.Rejected(EmptyEscape);
          }
          var escape := document[cur + 1];
          if escape == 117 {
            var unicode := DecodeUnicodeCodePoint(cur + 2, end);
            if unicode.Bad? {
              AddError(unicode.message, token);
              return P.Rejected(unicode.message);
            }
            text := text + Utf8.Encode(unicode.value);
            cur := unicode.next;
          } else {
            var plain := S.Unescaped(escape);
            if plain < 0 {
              AddError(BadEscape, token);
              return P.Rejected(BadEscape);
            }
            text := text + [plain];
            cur := cur + 2;
          }
        } else {
          text := text + [c];
          cur := cur + 1;
        }
      }
      decoded := P.Decoded.Value(StringValue(text));
    }

    // ----- the node stack -----

    /** currentValue, through which the read methods write. */
    function CurrentValue(): Value
      requires nodes != []
      reads this
    {
      nodes[|nodes| - 1]
    }

    method SetCurrentValue(v: Value)
      requires nodes != []
      modifies this`nodes
      ensures nodes == old(nodes)[..|old(nodes)| - 1] + [v]
    {
      nodes := nodes[..|nodes| - 1] + [v];
    }

    /** currentValue()[name] pushed on the stack; a missing member is created as null. */
    method PushMember(name: Text)
      requires nodes != [] && CurrentValue().ObjectValue?
      modifies this`nodes
      ensures var ms := old(CurrentValue()).members;
        nodes == old(nodes)[..|old(nodes)| - 1]
               + [ObjectValue(Put(ms, name, ValueOf(ms, name))), ValueOf(ms, name)]
    {
      var ms := CurrentValue().members;
      SetCurrentValue(ObjectValue(Put(ms, name, ValueOf(ms, name))));
      nodes := nodes + [ValueOf(ms, name)];
    }

    method PopMember(name: Text)
      requires |nodes| >= 2 && nodes[|nodes| - 2].ObjectValue?
      modifies this`nodes
      ensures var n := |old(nodes)|;
        nodes == old(nodes)[..n - 2]
               + [ObjectValue(Put(old(nodes)[n - 2].members, name, old(nodes)[n - 1]))]
    {
      var child := CurrentValue();
      nodes := nodes[..|nodes| - 1];
      SetCurrentValue(ObjectValue(Put(CurrentValue().members, name, child)));
    }

    /** currentValue()[index] pushed on the stack, a null behind the last element. */
    method PushElement()
      requires nodes != [] && CurrentValue().ArrayValue?
      modifies this`nodes
      ensures nodes == old(nodes)[..|old(nodes)| - 1]
        + [ArrayValue(old(CurrentValue()).slots + [Item(NullValue)]), NullValue]
    {
      SetCurrentValue(ArrayValue(CurrentValue().slots + [Item(NullValue)]));
      nodes := nodes + [NullValue];
    }

    method PopElement(index: nat)
      requires |nodes| >= 2 && nodes[|nodes| - 2].ArrayValue? && index < |nodes[|nodes| - 2].slots|
      modifies this`nodes
      ensures var n := |old(nodes)|;
        nodes == old(nodes)[..n - 2]
               + [ArrayValue(old(nodes)[n - 2].slots[index := Item(old(nodes)[n - 1])])]
    {
      var child := CurrentValue();
      nodes := nodes[..|nodes| - 1];
      SetCurrentValue(ArrayValue(CurrentValue().slots[index := Item(child)]));
    }

    // ----- values -----

    /** The state a read method leaves, if it returns normally: the node stack has its
        old height, with the value read on top. */
    twostate predicate Left(p: P.Parsed)
      requires old(nodes) != []
      reads this
    {
      && Valid() && document == old(document) && begin == old(begin)
      && current == p.pos
      && nodes == old(nodes)[..|old(nodes)| - 1] + [p.val]
      && errors == old(errors) + p.errors
    }

    /** What every read method keeps, even when it throws. */
    twostate predicate Kept()
      reads this
    {
      Valid() && document == old(document) && begin == old(begin) && current >= old(current)
    }

    /** A round of readObject or readArray that is to be followed by another: only the
        current value has changed. */
    twostate predicate Continued()
      reads this
    {
      && current > old(current) && errors == old(errors)
      && |nodes| == |old(nodes)| > 0
      && nodes[..|nodes| - 1] == old(nodes)[..|nodes| - 1]
    }

    /** The object under construction, read on from here, becomes `whole`. */
    ghost predicate AtMembers(whole: P.Parsed, unnamed: bool)
      reads this
    {
      && Valid() && nodes != [] && CurrentValue().ObjectValue?
      && whole == P.ParseMembers(config, document, current, |nodes|, unnamed, CurrentValue().members)
    }

    /** The same from behind the name of a member. */
    ghost predicate AtMember(whole: P.Parsed, name: Text)
      reads this
    {
      && Valid() && nodes != [] && CurrentValue().ObjectValue?
      && whole == P.ParseMember(config, document, current, |nodes|, name, CurrentValue().members)
    }

    /** The array under construction, read on from here, becomes `whole`. */
    ghost predicate AtElements(whole: P.Parsed)
      reads this
    {
      && Valid() && nodes != [] && CurrentValue().ArrayValue?
      && whole == P.ParseElements(config, document, current, |nodes|, CurrentValue().slots)
    }

    /** An error inside an object or array: it is recorded and the rest is skipped. */
    method Fail(message: Message, token: L.Token, until: L.Kind, ghost whole: P.Parsed)
      requires Valid() && nodes != [] && current == token.end
      requires whole == P.AddErrorAndRecover(config, document, token, message, until, CurrentValue(), [])
      modifies this`current, this`errors
      ensures Kept() && whole.outcome == P.Failed && Left(whole)
    {
      hide L.Recover;
      AddErrorAndRecover(message, token, until);
      assert nodes == nodes[..|nodes| - 1] + [CurrentValue()];
    }

    method ReadValue() returns (outcome: P.Outcome)
      requires Valid() && nodes != []
      modifies this
      ensures Kept()
      ensures var p := P.ParseValue(config, document, old(current), |old(nodes)|, old(CurrentValue()));
        outcome == p.outcome && (outcome != P.Thrown ==> Left(p))
      decreases |document| - current, 0
    {
      if |nodes| > config.features.stackLimit {
        return P.Thrown;
      }
      var token := SkipCommentTokens();
      if token.kind == L.ObjectBegin {
        outcome := ReadObject();
      } else if token.kind == L.ArrayBegin {
        outcome := ReadArray();
      } else {
        outcome := ReadLeaf(token);
      }
    }

    /** The cases of readValue that read no further token. */
    method ReadLeaf(token: L.Token) returns (outcome: P.Outcome)
      requires Valid() && nodes != [] && current == token.end && begin <= token.start <= token.end
      requires token.end == token.start ==> token.kind == L.EndOfStream
      requires token.kind == L.StringToken ==> token.start + 2 <= token.end
      requires L.OneChar(token.kind) ==> token.end == token.start + 1
      modifies this
      ensures Valid() && document == old(document)
      ensures var p := P.Leaf(config, document, token, old(CurrentValue()));
        outcome == p.outcome && Left(p)
    {
      hide P.DecodeNumber, P.DecodeString, P.Leaf;
      ghost var prior := CurrentValue();
      if token.kind == L.NumberToken {
        P.LeafDecoded(config, document, token, prior);
        var decoded := DecodeNumber(token);
        outcome := Store(decoded);
      } else if token.kind == L.StringToken {
        P.LeafDecoded(config, document, token, prior);
        var decoded := DecodeString(token);
        outcome := Store(decoded);
      } else if token.kind == L.TrueToken || token.kind == L.FalseToken {
        outcome := StoreConstant(token, BoolValue(token.kind == L.TrueToken));
      } else if token.kind == L.NullToken {
        outcome := StoreConstant(token, NullValue);
      } else if token.kind == L.NaNToken {
        outcome := StoreConstant(token, RealValue(NaN));
      } else if token.kind == L.PosInfToken {
        outcome := StoreConstant(token, RealValue(PositiveInfinity));
      } else if token.kind == L.NegInfToken {
        outcome := StoreConstant(token, RealValue(NegativeInfinity));
      } else {
        outcome := NoValue(token);
      }
    }

    /** A token that is no value: null where a placeholder was dropped, else an error. */
    method NoValue(token: L.Token) returns (outcome: P.Outcome)
      requires Valid() && nodes != [] && current == token.end && begin <= token.start <= token.end
      requires token.end == token.start ==> token.kind == L.EndOfStream
      requires L.OneChar(token.kind) ==> token.end == token.start + 1
      requires token.kind !in {L.NumberToken, L.StringToken, L.TrueToken, L.FalseToken, L.NullToken,
                               L.NaNToken, L.PosInfToken, L.NegInfToken}
      modifies this
      ensures Valid() && document == old(document)
      ensures var p := P.Leaf(config, document, token, old(CurrentValue()));
        outcome == p.outcome && Left(p)
    {
      hide P.Leaf;
      P.LeafOther(config, document, token, CurrentValue());
      if P.Closes(token.kind) && config.features.allowDroppedNullPlaceholders {
        current := current - 1; // un-read the token
        SetCurrentValue(NullValue);
        outcome := P.Success;
      } else {
        AddError(ValueExpected, token);
        assert nodes == nodes[..|nodes| - 1] + [CurrentValue()];
        outcome := P.Failed;
      }
    }

    /** A keyword's value becomes the current value. */
    method StoreConstant(token: L.Token, v: Value) returns (outcome: P.Outcome)
      requires Valid() && nodes != [] && current == token.end && token.start <= token.end
      requires token.kind == L.StringToken ==> token.start + 2 <= token.end
      requires L.OneChar(token.kind) ==> token.end == token.start + 1
      requires P.IsConstant(token, v)
      modifies this`nodes
      ensures var p := P.Leaf(config, document, token, old(CurrentValue()));
        outcome == p.outcome && Left(p)
    {
      hide P.Leaf, P.IsConstant;
      P.LeafConstant(config, document, token, CurrentValue(), v);
      SetCurrentValue(v);
      outcome := P.Success;
    }

    method Store(decoded: P.Decoded) returns (outcome: P.Outcome)
      requires nodes != []
      modifies this`nodes
      ensures outcome == if decoded.Rejected? then P.Failed else P.Success
      ensures nodes == old(nodes)[..|old(nodes)| - 1]
        + [if decoded.Rejected? then old(CurrentValue()) else decoded.v]
    {
      if decoded.Rejected? {
        assert nodes == nodes[..|nodes| - 1] + [CurrentValue()];
        return P.Failed;
      }
      SetCurrentValue(decoded.v);
      outcome := P.Success;
    }

    method ReadObject() returns (outcome: P.Outcome)
      requires Valid() && nodes != []
      modifies this
      ensures Kept()
      ensures var p := P.ParseMembers(config, document, old(current), |old(nodes)|, true, []);
        outcome == p.outcome && (outcome != P.Thrown ==> Left(p))
      decreases |document| - current, 3
    {
      hide P.ParseMembers, P.ParseMember;
      ghost var depth, below := |nodes|, nodes[..|nodes| - 1];
      ghost var whole := P.ParseMembers(config, document, current, depth, true, []);
      var name: Text := [];
      SetCurrentValue(ObjectValue([]));
      while true
        invariant Kept() && errors == old(errors)
        invariant |nodes| == depth && nodes[..depth - 1] == below
        invariant AtMembers(whole, name == [])
        decreases |document| - current
      {
        var more: bool;
        outcome, more, name := ReadName(name, whole);
        if !more {
          return;
        }
        outcome, more := ReadMember(name, whole);
        if !more {
          return;
        }
      }
    }

    /** One round of readObject up to the name; `last` is the name before. `more` says
        that a value is to follow, else the object has ended one way or another. */
    method ReadName(last: Text, ghost whole: P.Parsed) returns (outcome: P.Outcome, more: bool, name: Text)
      requires Valid() && nodes != [] && CurrentValue().ObjectValue?
      requires whole == P.ParseMembers(config, document, current, |nodes|, last == [], CurrentValue().members)
      modifies this`current, this`errors
      ensures Kept()
      ensures !more ==> outcome == whole.outcome && (outcome != P.Thrown ==> Left(whole))
      ensures more ==> Continued() && AtMember(whole, name)
    {
      hide P.ParseMembers, P.ParseNamed, P.ParseMember, P.DecodeString, P.DecodeNumber, L.NonComment, L.Recover;
      ghost var ms := CurrentValue().members;
      P.MembersUnfold(config, document, current, |nodes|, last == [], ms);
      assert nodes == nodes[..|nodes| - 1] + [ObjectValue(ms)];
      var token := ReadNonComment();
      name := [];
      if token.kind == L.ObjectEnd && (last == [] || config.features.allowTrailingCommas) {
        return P.Success, false, name;
      }
      if token.kind != L.StringToken && !(token.kind == L.NumberToken && config.features.allowNumericKeys) {
        Fail(MissingBraceOrName, token, L.ObjectEnd, whole);
        return P.Failed, false, name;
      }
      outcome, more, name := DecodeName(token, whole);
    }

    /** Decoding a token that stands in the place of a name. */
    method DecodeName(token: L.Token, ghost whole: P.Parsed) returns (outcome: P.Outcome, more: bool, name: Text)
      requires Valid() && nodes != [] && CurrentValue().ObjectValue?
      requires token.start < token.end == current && (token.kind == L.StringToken ==> token.start + 2 <= token.end)
      requires token.kind == L.StringToken || token.kind == L.NumberToken
      requires whole == P.ParseNamed(config, document, token, |nodes|,
        if token.kind == L.StringToken then P.DecodeString(document, token)
        else P.DecodeNumber(config, document, token),
        CurrentValue().members)
      modifies this`current, this`errors
      ensures Kept()
      ensures !more ==> outcome == whole.outcome && (outcome != P.Thrown ==> Left(whole))
      ensures more ==> current == old(current) && errors == old(errors) && AtMember(whole, name)
    {
      hide P.ParseNamed, P.ParseMember, P.DecodeString, P.DecodeNumber, P.NameOf, HasKey, L.Recover;
      ghost var ms := CurrentValue().members;
      name := [];
      var decoded: P.Decoded;
      if token.kind == L.StringToken {
        decoded := DecodeString(token);
      } else {
        decoded := DecodeNumber(token);
      }
      if decoded.Rejected? {
        P.RejectedName(config, document, token, |nodes|, decoded, ms);
        RecoverFromError(L.ObjectEnd);
        assert nodes == nodes[..|nodes| - 1] + [ObjectValue(ms)];
        return P.Failed, false, name;
      }
      name := P.NameOf(config, decoded.v);
      outcome, more := TakeName(token, name, decoded.v, whole);
    }

    /** The checks on a name that was decoded. */
    method TakeName(token: L.Token, name: Text, ghost v: Value, ghost whole: P.Parsed)
        returns (outcome: P.Outcome, more: bool)
      requires Valid() && nodes != [] && CurrentValue().ObjectValue?
      requires token.start < token.end == current && name == P.NameOf(config, v)
      requires whole == P.ParseNamed(config, document, token, |nodes|, P.Value(v), CurrentValue().members)
      modifies this`current, this`errors
      ensures Kept()
      ensures !more ==> outcome == whole.outcome && (outcome != P.Thrown ==> Left(whole))
      ensures more ==> current == old(current) && errors == old(errors) && AtMember(whole, name)
    {
      hide P.ParseMember, P.NameOf, HasKey, L.NonComment, L.Recover;
      assert nodes == nodes[..|nodes| - 1] + [ObjectValue(CurrentValue().members)];
      if |name| >= KEY_LIMIT {
        return P.Thrown, false;
      }
      if config.features.rejectDupKeys && HasKey(CurrentValue().members, name) {
        Fail(DuplicateKey, token, L.ObjectEnd, whole);
        return P.Failed, false;
      }
      outcome, more := P.Success, true;
    }

    /** One round of readObject behind the name. `more` says that the loop goes on. */
    method ReadMember(name: Text, ghost whole: P.Parsed) returns (outcome: P.Outcome, more: bool)
      requires Valid() && nodes != [] && CurrentValue().ObjectValue?
      requires whole == P.ParseMember(config, document, current, |nodes|, name, CurrentValue().members)
      modifies this
      ensures Kept()
      ensures !more ==> outcome == whole.outcome && (outcome != P.Thrown ==> Left(whole))
      ensures more ==> Continued() && AtMembers(whole, name == [])
      decreases |document| - current, 2
    {
      hide P.ParseValue, P.ParseMembers, P.ParseMember, P.AfterMember;
      hide Put, ValueOf, L.NonComment, L.ReadToken, L.Recover, L.SkipSpaces;
      ghost var depth, ms := |nodes|, CurrentValue().members;
      P.MemberUnfold(config, document, current, depth, name, ms);
      var colon := ReadToken();
      if colon.kind != L.MemberSeparator {
        Fail(MissingColon, colon, L.ObjectEnd, whole);
        return P.Failed, false;
      }
      outcome, more := ReadMemberRest(name, whole);
    }

    /** One round of readObject behind the colon. */
    method ReadMemberRest(name: Text, ghost whole: P.Parsed) returns (outcome: P.Outcome, more: bool)
      requires Valid() && nodes != [] && CurrentValue().ObjectValue?
      requires var ms := CurrentValue().members;
        var r := P.ParseValue(config, document, current, |nodes| + 1, ValueOf(ms, name));
        whole == P.AfterMember(config, document, |nodes|, name, Put(ms, name, r.val), r)
      modifies this
      ensures Kept()
      ensures !more ==> outcome == whole.outcome && (outcome != P.Thrown ==> Left(whole))
      ensures more ==> Continued() && AtMembers(whole, name == [])
      decreases |document| - current, 2
    {
      hide P.ParseValue, P.ParseMembers, P.ParseMember, P.AfterMember;
      hide Put, ValueOf, L.NonComment, L.ReadToken, L.Recover, L.SkipSpaces;
      ghost var depth, ms := |nodes|, CurrentValue().members;
      ghost var r := P.ParseValue(config, document, current, depth + 1, ValueOf(ms, name));
      P.AfterUnread(config, document, depth, name, Put(ms, name, r.val), r);
      outcome := ReadMemberValue(name);
      if outcome == P.Thrown {
        return outcome, false;
      }
      if outcome == P.Failed {
        RecoverFromError(L.ObjectEnd);
        return P.Failed, false;
      }
      outcome, more := FinishMember(name, r.val, whole);
    }

    /** Reads the value of the member `name` and stores it in the object. */
    method ReadMemberValue(name: Text) returns (outcome: P.Outcome)
      requires Valid() && nodes != [] && CurrentValue().ObjectValue?
      modifies this
      ensures Kept()
      ensures var ms := old(CurrentValue()).members;
        var r := P.ParseValue(config, document, old(current), |old(nodes)| + 1, ValueOf(ms, name));
        outcome == r.outcome
        && (outcome != P.Thrown ==> Left(P.Parsed(outcome, r.pos, ObjectValue(Put(ms, name, r.val)), r.errors)))
      decreases |document| - current, 1
    {
      hide P.ParseValue, Put, ValueOf;
      ghost var depth, ms := |nodes|, CurrentValue().members;
      PushMember(name);
      ghost var start := current;
      outcome := ReadValue();
      if outcome == P.Thrown {
        return outcome;
      }
      PopMember(name);
      ghost var r := P.ParseValue(config, document, start, depth + 1, ValueOf(ms, name));
      PutTwice(ms, name, ValueOf(ms, name), r.val);
      assert nodes == old(nodes)[..depth - 1] + [ObjectValue(Put(ms, name, r.val))];
    }

    /** What follows a member that was read without error. */
    method FinishMember(name: Text, ghost v: Value, ghost whole: P.Parsed) returns (outcome: P.Outcome, more: bool)
      requires Valid() && nodes != [] && CurrentValue().ObjectValue?
      requires whole == P.AfterMember(config, document, |nodes|, name, CurrentValue().members,
                                      P.Parsed(P.Success, current, v, []))
      modifies this`current, this`errors
      ensures Kept()
      ensures !more ==> outcome == whole.outcome && outcome != P.Thrown && Left(whole)
      ensures more ==> Continued() && AtMembers(whole, name == [])
    {
      hide P.ParseMembers, L.NonComment, L.ReadToken, L.Recover;
      assert nodes == nodes[..|nodes| - 1] + [ObjectValue(CurrentValue().members)];
      var comma := ReadToken();
      if comma.kind != L.ObjectEnd && comma.kind != L.ArraySeparator && comma.kind != L.CommentToken {
        Fail(MissingCommaOrBrace, comma, L.ObjectEnd, whole);
        return P.Failed, false;
      }
      if comma.kind == L.CommentToken {
        comma := ReadNonComment();
      }
      if comma.kind == L.ObjectEnd {
        return P.Success, false;
      }
      outcome, more := P.Success, true;
    }

    method ReadArray() returns (outcome: P.Outcome)
      requires Valid() && nodes != []
      modifies this
      ensures Kept()
      ensures var p := P.ParseElements(config, document, old(current), |old(nodes)|, []);
        outcome == p.outcome && (outcome != P.Thrown ==> Left(p))
      decreases |document| - current, 3
    {
      hide P.ParseValue, P.AfterElement, P.ParseElements, L.SkipSpaces, L.TokenAt, P.ArrayMayClose;
      ghost var depth, below := |nodes|, nodes[..|nodes| - 1];
      ghost var whole := P.ParseElements(config, document, current, depth, []);
      SetCurrentValue(ArrayValue([]));
      var index := 0;
      while true
        invariant Kept() && errors == old(errors)
        invariant |nodes| == depth && nodes[..depth - 1] == below
        invariant AtElements(whole) && |CurrentValue().slots| == index
        decreases |document| - current
      {
        P.ElementsUnfold(config, document, current, depth, CurrentValue().slots);
        SkipSpaces();
        if current != |document| && document[current] == 93
           && (index == 0 || (config.features.allowTrailingCommas && !config.features.allowDroppedNullPlaceholders)) {
          BracketToken(config.features, document, current);
          var _ := ReadToken();
          return P.Success;
        }
        var more: bool;
        outcome, more := ReadElement(index, whole);
        if !more {
          return;
        }
        index := index + 1;
      }
    }

    /** One round of readArray, from its element on. */
    method ReadElement(index: nat, ghost whole: P.Parsed) returns (outcome: P.Outcome, more: bool)
      requires Valid() && nodes != [] && CurrentValue().ArrayValue? && index == |CurrentValue().slots|
      requires var r := P.ParseValue(config, document, current, |nodes| + 1, NullValue);
        whole == P.AfterElement(config, document, |nodes|, CurrentValue().slots + [Item(r.val)], r)
      modifies this
      ensures Kept()
      ensures !more ==> outcome == whole.outcome && (outcome != P.Thrown ==> Left(whole))
      ensures more ==> Continued() && AtElements(whole) && |CurrentValue().slots| == index + 1
      decreases |document| - current, 2
    {
      hide P.ParseValue, P.ParseElements, P.AfterElement, L.NonComment, L.Recover;
      ghost var depth, slots := |nodes|, CurrentValue().slots;
      ghost var r := P.ParseValue(config, document, current, depth + 1, NullValue);
      P.AfterUnreadElement(config, document, depth, slots + [Item(r.val)], r);
      outcome := ReadElementValue(index);
      if outcome == P.Thrown {
        return outcome, false;
      }
      if outcome == P.Failed {
        RecoverFromError(L.ArrayEnd);
        return P.Failed, false;
      }
      outcome, more := FinishElement(r.val, whole);
    }

    /** Reads the next element and stores it in the array. */
    method ReadElementValue(index: nat) returns (outcome: P.Outcome)
      requires Valid() && nodes != [] && CurrentValue().ArrayValue? && index == |CurrentValue().slots|
      modifies this
      ensures Kept()
      ensures var slots := old(CurrentValue()).slots;
        var r := P.ParseValue(config, document, old(current), |old(nodes)| + 1, NullValue);
        outcome == r.outcome
        && (outcome != P.Thrown ==> Left(P.Parsed(outcome, r.pos, ArrayValue(slots + [Item(r.val)]), r.errors)))
      decreases |document| - current, 1
    {
      hide P.ParseValue;
      ghost var depth, slots := |nodes|, CurrentValue().slots;
      PushElement();
      ghost var pushed := nodes;
      assert |pushed| == depth + 1 && pushed[depth - 1] == ArrayValue(slots + [Item(NullValue)]);
      outcome := ReadValue();
      if outcome == P.Thrown {
        return outcome;
      }
      ghost var r := P.ParseValue(config, document, old(current), depth + 1, NullValue);
      assert nodes[depth - 1] == pushed[depth - 1] && nodes[depth] == r.val;
      PopElement(index);
      assert (slots + [Item(NullValue)])[index := Item(r.val)] == slots + [Item(r.val)];
      assert nodes == old(nodes)[..depth - 1] + [ArrayValue(slots + [Item(r.val)])];
    }

    /** What follows an element that was read without error. */
    method FinishElement(ghost v: Value, ghost whole: P.Parsed) returns (outcome: P.Outcome, more: bool)
      requires Valid() && nodes != [] && CurrentValue().ArrayValue?
      requires whole == P.AfterElement(config, document, |nodes|, CurrentValue().slots,
                                       P.Parsed(P.Success, current, v, []))
      modifies this`current, this`errors
      ensures Kept()
      ensures !more ==> outcome == whole.outcome && outcome != P.Thrown && Left(whole)
      ensures more ==> Continued() && AtElements(whole) && CurrentValue() == old(CurrentValue())
    {
      hide P.ParseElements, L.NonComment, L.ReadToken, L.Recover;
      assert nodes == nodes[..|nodes| - 1] + [ArrayValue(CurrentValue().slots)];
      var token := ReadNonComment();
      if token.kind != L.ArraySeparator && token.kind != L.ArrayEnd {
        Fail(MissingCommaOrBracket, token, L.ArrayEnd, whole);
        return P.Failed, false;
      }
      if token.kind == L.ArrayEnd {
        return P.Success, false;
      }
      outcome, more := P.Success, true;
    }

    /** parse: reads one document into a root value. It succeeds on nothing but texts of the
        grammar, and, where nothing extra is allowed and no slash occurs, on all of them. */
    method Parse(doc: Text, root: Value) returns (outcome: P.Outcome, read: Value)
      modifies this
      ensures Valid() && document == doc
      ensures var p := P.ParseDocument(config, doc, root);
        outcome == p.outcome
        && (outcome != P.Thrown ==> read == p.val && errors == p.errors && current == p.pos && nodes == [])
      ensures D.Decides(config, doc, outcome, read)
    {
      hide D.Decides;
      hide P.ParseValue, L.SkipCommentTokens, HasAt, P.AfterDocument;
      document := doc;
      begin, current, errors := 0, 0, [];
      nodes := [root];
      SkipBom(config.features.skipBom);
      outcome := ReadValue();
      if outcome == P.Thrown {
        D.ParseDecides(config, doc, root, root);
        return outcome, root;
      }
      read := CurrentValue();
      nodes := nodes[..|nodes| - 1];
      ghost var r := P.ParseValue(config, doc, P.DocumentStart(config.features, doc), 1, root);
      assert errors == r.errors && P.Parsed(outcome, current, read, errors) == r;
      outcome := FinishParse(outcome, read);
      D.ParseDecides(config, doc, root, read);
    }

    /** What parse does behind the root value. */
    method FinishParse(before: P.Outcome, root: Value) returns (outcome: P.Outcome)
      requires Valid() && before != P.Thrown && (before == P.Success <==> errors == [])
      modifies this`current, this`errors
      ensures Valid()
      ensures P.Parsed(outcome, current, root, errors)
           == P.AfterDocument(config, document, P.Parsed(before, old(current), root, old(errors)))
    {
      hide L.SkipCommentTokens;
      var token := SkipCommentTokens();
      if config.features.failIfExtra && token.kind != L.EndOfStream {
        AddError(ExtraAfterValue, token);
        return P.Failed;
      }
      if config.features.strictRoot && !root.ArrayValue? && !root.ObjectValue? {
        AddError(RootMustBeContainer, L.Token(L.ErrorToken, 0, |document|));
        return P.Failed;
      }
      outcome := before;
    }
  }
}
