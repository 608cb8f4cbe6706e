/** JSON string literals: the quoter (valueToQuotedStringN), the scanner that finds
    the closing quote (readString) and the unescaper (decodeString). */
module JsonString {
  import opened Bytes
  import opened JsonErrors
  import Utf8

  const QUOTE: Byte := 34
  const BACKSLASH: Byte := 92

  // ----- printing -----

  function HexDigit(n: nat): Byte
    requires n < 16
  { if n < 10 then 48 + n else 87 + n }

  /** toHex16Bit: the low sixteen bits, in lower case. */
  function Hex16(x: nat): Text {
    [HexDigit(x / 4096 % 16), HexDigit(x / 256 % 16), HexDigit(x / 16 % 16), HexDigit(x % 16)]
  }

  function HexEscape(x: nat): Text { [BACKSLASH, 117] + Hex16(x) }

  /** The letter of a two-character escape, 0 when `c` has none. */
  function ShortEscape(c: Byte): Byte {
    if c == QUOTE || c == BACKSLASH then c
    else if c == 8 then 98
    else if c == 12 then 102
    else if c == 10 then 110
    else if c == 13 then 114
    else if c == 9 then 116
    else 0
  }

  function EscapeCodePoint(cp: nat): Text
    requires cp < 0x200000
  {
    if cp < 0x20 then HexEscape(cp)
    else if cp < 0x80 then [cp]
    else if cp < 0x10000 then HexEscape(cp)
    else HexEscape(Utf8.HighSurrogate(cp)) + HexEscape(Utf8.LowSurrogate(cp))
  }

  /** What the quoting loop writes for the character at `i`, and how far it moves. */
  function QuoteStep(s: Text, i: nat, emitUtf8: bool): (r: (Text, nat))
    requires i < |s|
    ensures 1 <= r.1 && i + r.1 <= |s|
  {
    if ShortEscape(s[i]) != 0 then ([BACKSLASH, ShortEscape(s[i])], 1)
    else if emitUtf8 then (if s[i] < 0x20 then HexEscape(s[i]) else [s[i]], 1)
    else var (cp, used) := Utf8.Decode(s, i); (EscapeCodePoint(cp), used)
  }

  function QuoteBody(s: Text, i: nat, emitUtf8: bool): Text
    requires i <= |s|
    decreases |s| - i
  {
    if i == |s| then []
    else QuoteStep(s, i, emitUtf8).0 + QuoteBody(s, i + QuoteStep(s, i, emitUtf8).1, emitUtf8)
  }

  predicate RequiresEscaping(c: Byte) {
    c == BACKSLASH || c == QUOTE || c < 0x20 || c > 0x7F
  }

  predicate AnyRequiresEscaping(s: Text) {
    exists k :: 0 <= k < |s| && RequiresEscaping(s[k])
  }

  /** valueToQuotedStringN without its shortcut for harmless texts. */
  function Quoted(s: Text, emitUtf8: bool): Text {
    [QUOTE] + QuoteBody(s, 0, emitUtf8) + [QUOTE]
  }

  lemma {:induction false} PlainBody(s: Text, i: nat, emitUtf8: bool)
    requires i <= |s| && !AnyRequiresEscaping(s)
    ensures QuoteBody(s, i, emitUtf8) == s[i..]
    decreases |s| - i
  {
    if i < |s| {
      assert !RequiresEscaping(s[i]);
      PlainBody(s, i + 1, emitUtf8);
      assert s[i..] == [s[i]] + s[i + 1..];
    }
  }

  /** The shortcut writes what the escaping loop would have written. */
  lemma ShortcutAgrees(s: Text, emitUtf8: bool)
    requires !AnyRequiresEscaping(s)
    ensures Quoted(s, emitUtf8) == [QUOTE] + s + [QUOTE]
  {
    PlainBody(s, 0, emitUtf8);
  }

  // ----- scanning -----

  /** readString and readStringSingleQuote: whether the closing quote was met, and
      the position reached. */
  function Scan(doc: Text, pos: nat, quote: Byte): (r: (bool, nat))
    requires pos <= |doc|
    ensures pos <= r.1 <= |doc|
    ensures r.0 ==> pos < r.1 && doc[r.1 - 1] == quote
    decreases |doc| - pos
  {
    if pos == |doc| then (false, pos)
    else if doc[pos] == BACKSLASH then
      Scan(doc, if pos + 2 <= |doc| then pos + 2 else |doc|, quote)
    else if doc[pos] == quote then (true, pos + 1)
    else Scan(doc, pos + 1, quote)
  }

  // ----- unescaping -----

  datatype Escape = Got(value: nat, next: nat) | Bad(message: Message)

  function HexValue(c: Byte): (v: int)
    ensures -1 <= v < 16
  {
    if 48 <= c <= 57 then c - 48
    else if 97 <= c <= 102 then c - 87
    else if 65 <= c <= 70 then c - 55
    else -1
  }

  /** decodeUnicodeEscapeSequence: four hexadecimal digits at `cur`. */
  function FourHexDigits(doc: Text, cur: nat, end: nat): (r: Escape)
    requires cur <= end <= |doc|
    ensures r.Got? ==> r.next == cur + 4 <= end && r.value < 0x10000
  {
    if end - cur < 4 then Bad(FourDigitsExpected)
    else
      var a, b := HexValue(doc[cur]), HexValue(doc[cur + 1]);
      var c, d := HexValue(doc[cur + 2]), HexValue(doc[cur + 3]);
      if a < 0 || b < 0 || c < 0 || d < 0 then Bad(HexDigitExpected)
      else Got(((a * 16 + b) * 16 + c) * 16 + d, cur + 4)
  }

  /** decodeUnicodeCodePoint: one escape, or a pair of them for a high surrogate. */
  function CodePointEscape(doc: Text, cur: nat, end: nat): (r: Escape)
    requires cur <= end <= |doc|
    ensures r.Got? ==> cur < r.next <= end
  {
    var high := FourHexDigits(doc, cur, end);
    if high.Bad? || !(0xD800 <= high.value <= 0xDBFF) then high
    else if end - high.next < 6 then Bad(SixMoreExpected)
    else if doc[high.next] == BACKSLASH && doc[high.next + 1] == 117 then
      var low := FourHexDigits(doc, high.next + 2, end);
      if low.Bad? then low else Got(Utf8.Combine(high.value, low.value), low.next)
    else Bad(SecondHalfExpected)
  }

  /** The character a two-character escape stands for, -1 when there is none. */
  function Unescaped(c: Byte): (r: int)
    ensures -1 <= r < 256
  {
    if c == QUOTE || c == 47 || c == BACKSLASH then c
    else if c == 98 then 8
    else if c == 102 then 12
    else if c == 110 then 10
    else if c == 114 then 13
    else if c == 116 then 9
    else -1
  }

  datatype Decoded = Plain(text: Text) | Malformed(message: Message)

  /** decodeString between `cur` and `end`, with `acc` decoded so far. */
  function DecodeFrom(doc: Text, cur: nat, end: nat, acc: Text): Decoded
    requires cur <= end <= |doc|
    decreases end - cur
  {
    if cur == end || doc[cur] == QUOTE then Plain(acc)
    else if doc[cur] != BACKSLASH then DecodeFrom(doc, cur + 1, end, acc + [doc[cur]])
    else if cur + 1 == end then Malformed(EmptyEscape)
    else if doc[cur + 1] == 117 then
      match CodePointEscape(doc, cur + 2, end)
      case Bad(message) => Malformed(message)
      case Got(cp, next) => DecodeFrom(doc, next, end, acc + Utf8.Encode(cp))
    else if Unescaped(doc[cur + 1]) < 0 then Malformed(BadEscape)
    else DecodeFrom(doc, cur + 2, end, acc + [Unescaped(doc[cur + 1])])
  }

  /** decodeString of the token from `start` to `limit`, quotes included. */
  function Decode(doc: Text, start: nat, limit: nat): Decoded
    requires start + 2 <= limit <= |doc|
  {
    DecodeFrom(doc, start + 1, limit - 1, [])
  }

  // ----- the printer and the reader undo each other -----

  /** Text with no bare quote and no dangling backslash: what the scanner passes over. */
  predicate Passable(t: Text) {
    t == [] || (t[0] != QUOTE && t[0] != BACKSLASH && Passable(t[1..]))
            || (t[0] == BACKSLASH && |t| >= 2 && Passable(t[2..]))
  }

  lemma {:induction false} PassableConcat(a: Text, b: Text)
    requires Passable(a) && Passable(b)
    ensures Passable(a + b)
  {
    if a == [] {
      assert a + b == b;
    } else {
      var k := if a[0] == BACKSLASH then 2 else 1;
      PassableConcat(a[k..], b);
      assert (a + b)[k..] == a[k..] + b;
    }
  }

  lemma {:induction false} ScanPasses(doc: Text, pos: nat, t: Text)
    requires HasAt(doc, pos, t) && Passable(t)
    ensures Scan(doc, pos, QUOTE) == Scan(doc, pos + |t|, QUOTE)
    decreases |t|
  {
    if t != [] {
      HasAtHead(doc, pos, t);
      var k := if t[0] == BACKSLASH then 2 else 1;
      assert t == t[..k] + t[k..];
      HasAtSplit(doc, pos, t[..k], t[k..]);
      ScanPasses(doc, pos + k, t[k..]);
    }
  }

  lemma HexEscapePassable(x: nat)
    ensures Passable(HexEscape(x))
  {
    var h := Hex16(x);
    assert HexEscape(x)[2..] == h;
    assert Passable(h[4..]) && h[3..][1..] == h[4..] && h[2..][1..] == h[3..] && h[1..][1..] == h[2..];
    assert Passable(h[3..]) && Passable(h[2..]) && Passable(h[1..]);
  }

  lemma QuoteStepPassable(s: Text, i: nat, emitUtf8: bool)
    requires i < |s|
    ensures Passable(QuoteStep(s, i, emitUtf8).0)
  {
    var t := QuoteStep(s, i, emitUtf8).0;
    if ShortEscape(s[i]) != 0 {
      assert Passable(t[2..]);
    } else if emitUtf8 {
      HexEscapePassable(s[i]);
      assert s[i] >= 0x20 ==> Passable(t[1..]);
    } else {
      var cp := Utf8.Decode(s, i).0;
      HexEscapePassable(cp);
      if cp >= 0x10000 {
        HexEscapePassable(Utf8.HighSurrogate(cp));
        HexEscapePassable(Utf8.LowSurrogate(cp));
        PassableConcat(HexEscape(Utf8.HighSurrogate(cp)), HexEscape(Utf8.LowSurrogate(cp)));
      } else if 0x20 <= cp < 0x80 {
        assert cp == s[i] && Passable(t[1..]);
      }
    }
  }

  lemma {:induction false} QuoteBodyPassable(s: Text, i: nat, emitUtf8: bool)
    requires i <= |s|
    ensures Passable(QuoteBody(s, i, emitUtf8))
    decreases |s| - i
  {
    hide QuoteStep;
    if i < |s| {
      var (t, used) := QuoteStep(s, i, emitUtf8);
      QuoteStepPassable(s, i, emitUtf8);
      QuoteBodyPassable(s, i + used, emitUtf8);
      PassableConcat(t, QuoteBody(s, i + used, emitUtf8));
    }
  }

  lemma QuotedParts(doc: Text, pos: nat, s: Text, emitUtf8: bool)
    requires HasAt(doc, pos, Quoted(s, emitUtf8))
    ensures |Quoted(s, emitUtf8)| == |QuoteBody(s, 0, emitUtf8)| + 2
    ensures pos + |Quoted(s, emitUtf8)| <= |doc| && doc[pos] == QUOTE
    ensures HasAt(doc, pos + 1, QuoteBody(s, 0, emitUtf8))
    ensures doc[pos + 1 + |QuoteBody(s, 0, emitUtf8)|] == QUOTE
  {
    var body := QuoteBody(s, 0, emitUtf8);
    HasAtHead(doc, pos, [QUOTE] + body + [QUOTE]);
    assert ([QUOTE] + body + [QUOTE])[1..] == body + [QUOTE];
    HasAtSplit(doc, pos + 1, body, [QUOTE]);
    HasAtHead(doc, pos + 1 + |body|, [QUOTE]);
  }

  /** The scanner stops right behind the closing quote, whatever follows it. */
  lemma ScanQuoted(doc: Text, pos: nat, s: Text, emitUtf8: bool)
    requires HasAt(doc, pos, Quoted(s, emitUtf8))
    ensures doc[pos] == QUOTE
    ensures Scan(doc, pos + 1, QUOTE) == (true, pos + |Quoted(s, emitUtf8)|)
  {
    hide QuoteBody, Quoted, HasAt;
    QuotedParts(doc, pos, s, emitUtf8);
    QuoteBodyPassable(s, 0, emitUtf8);
    ScanPasses(doc, pos + 1, QuoteBody(s, 0, emitUtf8));
  }

  lemma HexDigitValue(n: nat)
    requires n < 16
    ensures HexValue(HexDigit(n)) == n
  {
  }

  lemma HexSum(x: nat)
    requires x < 0x10000
    ensures ((x / 4096 % 16 * 16 + x / 256 % 16) * 16 + x / 16 % 16) * 16 + x % 16 == x
  {
    assert x / 16 / 16 == x / 256 && x / 256 / 16 == x / 4096;
  }

  lemma HexEscapeAt(doc: Text, cur: nat, x: nat)
    requires HasAt(doc, cur, HexEscape(x))
    ensures cur + 6 <= |doc| && doc[cur] == BACKSLASH && doc[cur + 1] == 117
    ensures doc[cur + 2] == HexDigit(x / 4096 % 16) && doc[cur + 3] == HexDigit(x / 256 % 16)
    ensures doc[cur + 4] == HexDigit(x / 16 % 16) && doc[cur + 5] == HexDigit(x % 16)
  {
    hide HexDigit;
    HasAtSplit(doc, cur, [BACKSLASH, 117], Hex16(x));
    HasAtIndex(doc, cur, [BACKSLASH, 117], 0);
    HasAtIndex(doc, cur, [BACKSLASH, 117], 1);
    HasAtIndex(doc, cur + 2, Hex16(x), 0);
    HasAtIndex(doc, cur + 2, Hex16(x), 1);
    HasAtIndex(doc, cur + 2, Hex16(x), 2);
    HasAtIndex(doc, cur + 2, Hex16(x), 3);
  }

  lemma HexEscapeDecodes(doc: Text, cur: nat, end: nat, x: nat)
    requires cur <= end <= |doc| && x < 0x10000
    requires HasAt(doc, cur, HexEscape(x)) && cur + 6 <= end
    ensures doc[cur] == BACKSLASH && doc[cur + 1] == 117
    ensures FourHexDigits(doc, cur + 2, end) == Got(x, cur + 6)
  {
    hide HexDigit, HexValue;
    HexEscapeAt(doc, cur, x);
    HexDigitValue(x / 4096 % 16);
    HexDigitValue(x / 256 % 16);
    HexDigitValue(x / 16 % 16);
    HexDigitValue(x % 16);
    HexSum(x);
  }

  /** One escaped code point decodes to the code point it denotes. */
  lemma CodePointDecodes(doc: Text, cur: nat, end: nat, cp: nat, acc: Text)
    requires cur <= end <= |doc| && cp < 0x200000 && Utf8.Scalar(Utf8.Denoted(cp))
    requires cp != QUOTE && cp != BACKSLASH
    requires HasAt(doc, cur, EscapeCodePoint(cp)) && cur + |EscapeCodePoint(cp)| <= end
    ensures DecodeFrom(doc, cur, end, acc)
         == DecodeFrom(doc, cur + |EscapeCodePoint(cp)|, end, acc + Utf8.Encode(Utf8.Denoted(cp)))
  {
    if 0x20 <= cp < 0x80 {
      HasAtHead(doc, cur, [cp]);
    } else if cp < 0x10000 {
      HexEscapeDecodes(doc, cur, end, cp);
    } else {
      var high, low := Utf8.HighSurrogate(cp), Utf8.LowSurrogate(cp);
      HasAtSplit(doc, cur, HexEscape(high), HexEscape(low));
      HexEscapeDecodes(doc, cur, end, high);
      HexEscapeDecodes(doc, cur + 6, end, low);
    }
  }

  lemma StepDecodes(doc: Text, cur: nat, end: nat, s: Text, i: nat, acc: Text)
    requires cur <= end <= |doc| && i < |s|
    requires HasAt(doc, cur, QuoteStep(s, i, false).0) && cur + |QuoteStep(s, i, false).0| <= end
    ensures DecodeFrom(doc, cur, end, acc)
         == DecodeFrom(doc, cur + |QuoteStep(s, i, false).0|, end,
                       acc + Utf8.Encode(Utf8.Denoted(Utf8.Decode(s, i).0)))
    ensures QuoteStep(s, i, false).1 == Utf8.Decode(s, i).1
  {
    var t := QuoteStep(s, i, false).0;
    if ShortEscape(s[i]) != 0 {
      HasAtHead(doc, cur, t);
      HasAtHead(doc, cur + 1, t[1..]);
      assert Unescaped(ShortEscape(s[i])) == s[i];
    } else {
      Utf8.DecodeScalar(s, i);
      CodePointDecodes(doc, cur, end, Utf8.Decode(s, i).0, acc);
    }
  }

  lemma BodySplit(doc: Text, cur: nat, s: Text, i: nat, emitUtf8: bool)
    requires i < |s| && HasAt(doc, cur, QuoteBody(s, i, emitUtf8))
    ensures var (t, used) := QuoteStep(s, i, emitUtf8);
      && HasAt(doc, cur, t)
      && HasAt(doc, cur + |t|, QuoteBody(s, i + used, emitUtf8))
      && |QuoteBody(s, i, emitUtf8)| == |t| + |QuoteBody(s, i + used, emitUtf8)|
  {
    var (t, used) := QuoteStep(s, i, emitUtf8);
    HasAtSplit(doc, cur, t, QuoteBody(s, i + used, emitUtf8));
  }

  lemma RepairUnfold(s: Text, i: nat, acc: Text)
    requires i < |s|
    ensures acc + Utf8.RepairFrom(s, i)
         == acc + Utf8.Encode(Utf8.Denoted(Utf8.Decode(s, i).0)) + Utf8.RepairFrom(s, i + Utf8.Decode(s, i).1)
  {
  }

  lemma {:induction false} BodyDecodes(doc: Text, cur: nat, end: nat, s: Text, i: nat, acc: Text)
    requires cur <= end <= |doc| && i <= |s|
    requires HasAt(doc, cur, QuoteBody(s, i, false)) && cur + |QuoteBody(s, i, false)| == end
    ensures DecodeFrom(doc, cur, end, acc) == Plain(acc + Utf8.RepairFrom(s, i))
    decreases |s| - i
  {
    hide QuoteStep, HasAt, Utf8.Decode, Utf8.Encode, Utf8.Denoted;
    if i < |s| {
      var t, j := QuoteStep(s, i, false).0, i + QuoteStep(s, i, false).1;
      BodySplit(doc, cur, s, i, false);
      StepDecodes(doc, cur, end, s, i, acc);
      var here := Utf8.Encode(Utf8.Denoted(Utf8.Decode(s, i).0));
      BodyDecodes(doc, cur + |t|, end, s, j, acc + here);
      RepairUnfold(s, i, acc);
    } else {
      assert acc + [] == acc;
    }
  }

  lemma StepDecodesRaw(doc: Text, cur: nat, end: nat, s: Text, i: nat, acc: Text)
    requires cur <= end <= |doc| && i < |s|
    requires HasAt(doc, cur, QuoteStep(s, i, true).0) && cur + |QuoteStep(s, i, true).0| <= end
    ensures DecodeFrom(doc, cur, end, acc)
         == DecodeFrom(doc, cur + |QuoteStep(s, i, true).0|, end, acc + [s[i]])
  {
    var t := QuoteStep(s, i, true).0;
    if ShortEscape(s[i]) != 0 {
      HasAtHead(doc, cur, t);
      HasAtHead(doc, cur + 1, t[1..]);
      assert Unescaped(ShortEscape(s[i])) == s[i];
    } else if s[i] < 0x20 {
      HexEscapeDecodes(doc, cur, end, s[i]);
    } else {
      HasAtHead(doc, cur, t);
    }
  }

  /** With emitUTF8 only these bytes are escaped: quote, backslash and control characters. */
  lemma RawStepIs(s: Text, i: nat)
    requires i < |s|
    ensures var (t, used) := QuoteStep(s, i, true);
      && used == 1
      && (s[i] == 34 || s[i] == 92 ==> t == [92, s[i]])
      && (s[i] == 8 ==> t == [92, 98]) && (s[i] == 9 ==> t == [92, 116]) && (s[i] == 10 ==> t == [92, 110])
      && (s[i] == 12 ==> t == [92, 102]) && (s[i] == 13 ==> t == [92, 114])
      && (s[i] < 32 && s[i] !in {8, 9, 10, 12, 13} ==>
            |t| == 6 && t[..4] == [92, 117, 48, 48] && t[4] == 48 + s[i] / 16
            && t[5] == (if s[i] % 16 < 10 then 48 + s[i] % 16 else 87 + s[i] % 16))
      && (s[i] >= 32 && s[i] != 34 && s[i] != 92 ==> t == [s[i]])
  {
  }

  lemma RawBodyFront(s: Text, i: nat)
    requires i < |s|
    ensures QuoteBody(s, i, true) == QuoteStep(s, i, true).0 + QuoteBody(s, i + 1, true)
  {
    assert QuoteStep(s, i, true).1 == 1;
  }

  lemma {:induction false} BodyDecodesRaw(doc: Text, cur: nat, end: nat, s: Text, i: nat, acc: Text)
    requires cur <= end <= |doc| && i <= |s|
    requires HasAt(doc, cur, QuoteBody(s, i, true)) && cur + |QuoteBody(s, i, true)| == end
    ensures DecodeFrom(doc, cur, end, acc) == Plain(acc + s[i..])
    decreases |s| - i
  {
    hide QuoteStep, HasAt;
    if i < |s| {
      var t := QuoteStep(s, i, true).0;
      RawBodyFront(s, i);
      HasAtSplit(doc, cur, t, QuoteBody(s, i + 1, true));
      StepDecodesRaw(doc, cur, end, s, i, acc);
      BodyDecodesRaw(doc, cur + |t|, end, s, i + 1, acc + [s[i]]);
      assert acc + [s[i]] + s[i + 1..] == acc + s[i..];
    } else {
      assert acc + s[i..] == acc;
    }
  }

  lemma EmptyPrefix(t: Text)
    ensures [] + t == t
  {
  }

  /** Reading back a quoted text: with `emitUtf8` every byte string returns unchanged. */
  lemma DecodeQuotedRaw(doc: Text, pos: nat, s: Text)
    requires HasAt(doc, pos, Quoted(s, true))
    ensures Decode(doc, pos, pos + |Quoted(s, true)|) == Plain(s)
  {
    hide QuoteBody, HasAt, DecodeFrom;
    QuotedParts(doc, pos, s, true);
    BodyDecodesRaw(doc, pos + 1, pos + 1 + |QuoteBody(s, 0, true)|, s, 0, []);
    assert [] + s[0..] == s;
  }

  /** Without it every byte string returns repaired. */
  lemma DecodeQuoted(doc: Text, pos: nat, s: Text)
    requires HasAt(doc, pos, Quoted(s, false))
    ensures Decode(doc, pos, pos + |Quoted(s, false)|) == Plain(Utf8.Repair(s))
  {
    hide QuoteBody, HasAt, DecodeFrom;
    QuotedParts(doc, pos, s, false);
    BodyDecodes(doc, pos + 1, pos + 1 + |QuoteBody(s, 0, false)|, s, 0, []);
    EmptyPrefix(Utf8.Repair(s));
  }

  /** Without `emitUtf8` the round trip is the identity exactly on well-formed UTF-8. */
  lemma QuotedRoundTrip(s: Text)
    ensures Decode(Quoted(s, false), 0, |Quoted(s, false)|) == Plain(s) <==> Utf8.Valid(s)
    ensures Decode(Quoted(s, true), 0, |Quoted(s, true)|) == Plain(s)
  {
    DecodeQuoted(Quoted(s, false), 0, s);
    DecodeQuotedRaw(Quoted(s, true), 0, s);
    Utf8.RepairExact(s);
  }
}
