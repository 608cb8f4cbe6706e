/** The UTF-8 and UTF-16 surrogate codecs used for JSON strings. Bit masks and
    shifts of the original appear as division and remainder by powers of two;
    an OR of fields that do not overlap is their sum. */
module Utf8 {
  import opened Bytes

  const REPLACEMENT := 0xFFFD

  /** codePointToUTF8: nothing is produced above U+10FFFF. */
  function Encode(cp: nat): Text {
    if cp <= 0x7F then [cp]
    else if cp <= 0x7FF then [0xC0 + cp / 64 % 32, 0x80 + cp % 64]
    else if cp <= 0xFFFF then [0xE0 + cp / 4096 % 16, 0x80 + cp / 64 % 64, 0x80 + cp % 64]
    else if cp <= 0x10FFFF then
      [0xF0 + cp / 262144 % 8, 0x80 + cp / 4096 % 64, 0x80 + cp / 64 % 64, 0x80 + cp % 64]
    else []
  }

  /** One step of utf8ToCodepoint at position `i`: the code point, and how many
      bytes the caller's cursor has moved once its own increment is counted. */
  function Decode(s: Text, i: nat): (r: (nat, nat))
    requires i < |s|
    ensures 1 <= r.1 <= 4 && i + r.1 <= |s|
    ensures r.0 < 0x200000
  {
    var first, left := s[i], |s| - i;
    if first < 0x80 then (first, 1)
    else if first < 0xE0 then
      if left < 2 then (REPLACEMENT, 1) else
      var cp := first % 32 * 64 + s[i + 1] % 64;
      (if cp < 0x80 then REPLACEMENT else cp, 2)
    else if first < 0xF0 then
      if left < 3 then (REPLACEMENT, 1) else
      var cp := first % 16 * 4096 + s[i + 1] % 64 * 64 + s[i + 2] % 64;
      (if 0xD800 <= cp <= 0xDFFF || cp < 0x800 then REPLACEMENT else cp, 3)
    else if first < 0xF8 then
      if left < 4 then (REPLACEMENT, 1) else
      var cp := first % 8 * 262144 + s[i + 1] % 64 * 4096 + s[i + 2] % 64 * 64 + s[i + 3] % 64;
      (if cp < 0x10000 then REPLACEMENT else cp, 4)
    else (REPLACEMENT, 1)
  }

  /** RFC 2781 section 2.1, as the printer computes it: the ten-bit masks drop
      what lies above U+10FFFF. */
  function HighSurrogate(cp: nat): nat
    requires cp >= 0x10000
  { 0xD800 + (cp - 0x10000) / 1024 % 1024 }

  function LowSurrogate(cp: nat): nat
    requires cp >= 0x10000
  { 0xDC00 + (cp - 0x10000) % 1024 }

  /** RFC 2781 section 2.2, as the reader computes it. */
  function Combine(high: nat, low: nat): nat {
    0x10000 + high % 1024 * 1024 + low % 1024
  }

  /** A Unicode scalar value. */
  predicate Scalar(cp: nat) {
    cp <= 0xD7FF || 0xE000 <= cp <= 0x10FFFF
  }

  predicate Tail(b: Byte) { 0x80 <= b <= 0xBF }

  /** The length of the well-formed UTF-8 character (the UTF8-char production of
      RFC 3629 section 4) that starts at `i`; 0 when there is none. */
  function CharLength(s: Text, i: nat): (n: nat)
    ensures n <= 4 && (n > 0 ==> i + n <= |s|)
  {
    if i >= |s| then 0
    else if s[i] <= 0x7F then 1
    else if i + 1 >= |s| then 0
    else if 0xC2 <= s[i] <= 0xDF && Tail(s[i + 1]) then 2
    else if i + 2 >= |s| || !Tail(s[i + 2]) then 0
    else if || (s[i] == 0xE0 && 0xA0 <= s[i + 1] <= 0xBF)
            || (0xE1 <= s[i] <= 0xEC && Tail(s[i + 1]))
            || (s[i] == 0xED && 0x80 <= s[i + 1] <= 0x9F)
            || (0xEE <= s[i] <= 0xEF && Tail(s[i + 1])) then 3
    else if i + 3 >= |s| || !Tail(s[i + 3]) then 0
    else if || (s[i] == 0xF0 && 0x90 <= s[i + 1] <= 0xBF)
            || (0xF1 <= s[i] <= 0xF3 && Tail(s[i + 1]))
            || (s[i] == 0xF4 && 0x80 <= s[i + 1] <= 0x8F) then 4
    else 0
  }

  /** Well-formed UTF-8 from position `i` on (RFC 3629 section 4). */
  predicate ValidFrom(s: Text, i: nat)
    decreases |s| - i
  {
    i >= |s| || (CharLength(s, i) > 0 && ValidFrom(s, i + CharLength(s, i)))
  }

  predicate Valid(s: Text) { ValidFrom(s, 0) }

  /** The code point the printer ends up denoting for what it decoded: above
      U+10FFFF the surrogate masks fold it back into range. */
  function Denoted(cp: nat): nat {
    if cp < 0x10000 then cp else Combine(HighSurrogate(cp), LowSurrogate(cp))
  }

  /** What one decoding step leaves of the text once it is re-encoded. */
  function RepairFrom(s: Text, i: nat): Text
    requires i <= |s|
    decreases |s| - i
  {
    if i == |s| then []
    else Encode(Denoted(Decode(s, i).0)) + RepairFrom(s, i + Decode(s, i).1)
  }

  /** `s` with every malformed piece replaced as the printer replaces it. */
  function Repair(s: Text): Text { RepairFrom(s, 0) }

  /** Decoding always denotes a scalar value, whatever the bytes are. */
  lemma DecodeScalar(s: Text, i: nat)
    requires i < |s|
    ensures Scalar(Denoted(Decode(s, i).0))
  {
    var first, left := s[i], |s| - i;
    if 0xF0 <= first < 0xF8 && left >= 4 {
      var cp := Decode(s, i).0;
      if cp >= 0x10000 {
        assert HighSurrogate(cp) % 1024 == (cp - 0x10000) / 1024 % 1024;
      }
    }
  }

  /** A scalar value survives the surrogate split. */
  lemma DenotedScalar(cp: nat)
    requires Scalar(cp)
    ensures Denoted(cp) == cp
  {
    if cp >= 0x10000 {
      var d := cp - 0x10000;
      assert d / 1024 < 1024;
      assert HighSurrogate(cp) % 1024 == d / 1024;
      assert LowSurrogate(cp) % 1024 == d % 1024;
    }
  }

  /** RFC 3629 section 3, byte by byte: the values that these bytes make up. */
  lemma EncodePair(a: int, b: int, cp: int)
    requires 0xC2 <= a <= 0xDF && 0x80 <= b <= 0xBF && cp == (a - 0xC0) * 64 + (b - 0x80)
    ensures Encode(cp) == [a, b]
  {
  }

  lemma EncodeTriple(a: int, b: int, c: int, cp: int)
    requires 0xE0 <= a <= 0xEF && 0x80 <= b <= 0xBF && 0x80 <= c <= 0xBF
    requires cp == (a - 0xE0) * 4096 + (b - 0x80) * 64 + (c - 0x80) && cp >= 0x800
    ensures Encode(cp) == [a, b, c]
  {
    assert cp / 64 == (a - 0xE0) * 64 + (b - 0x80);
  }

  lemma EncodeQuadruple(a: int, b: int, c: int, d: int, cp: int)
    requires 0xF0 <= a <= 0xF4 && 0x80 <= b <= 0xBF && 0x80 <= c <= 0xBF && 0x80 <= d <= 0xBF
    requires cp == (a - 0xF0) * 262144 + (b - 0x80) * 4096 + (c - 0x80) * 64 + (d - 0x80)
    requires 0x10000 <= cp <= 0x10FFFF
    ensures Encode(cp) == [a, b, c, d]
  {
    assert cp / 64 == (a - 0xF0) * 4096 + (b - 0x80) * 64 + (c - 0x80);
    assert cp / 4096 == (a - 0xF0) * 64 + (b - 0x80);
  }

  lemma DecodeTriple(s: Text, i: nat)
    requires i < |s| && CharLength(s, i) == 3
    ensures Decode(s, i).1 == 3 && Scalar(Decode(s, i).0)
    ensures Encode(Decode(s, i).0) == [s[i], s[i + 1], s[i + 2]]
  {
    var a: int, b: int, c: int := s[i], s[i + 1], s[i + 2];
    var cp := (a - 0xE0) * 4096 + (b - 0x80) * 64 + (c - 0x80);
    assert 0xE0 <= a <= 0xEF && Tail(b) && Tail(c);
    assert a % 16 == a - 0xE0 && b % 64 == b - 0x80 && c % 64 == c - 0x80;
    assert Scalar(cp) && cp >= 0x800;
    assert Decode(s, i) == (cp, 3);
    EncodeTriple(a, b, c, cp);
  }

  lemma DecodeQuadruple(s: Text, i: nat)
    requires i < |s| && CharLength(s, i) == 4
    ensures Decode(s, i).1 == 4 && Scalar(Decode(s, i).0)
    ensures Encode(Decode(s, i).0) == [s[i], s[i + 1], s[i + 2], s[i + 3]]
  {
    var a: int, b: int, c: int, d: int := s[i], s[i + 1], s[i + 2], s[i + 3];
    var cp := (a - 0xF0) * 262144 + (b - 0x80) * 4096 + (c - 0x80) * 64 + (d - 0x80);
    assert 0xF0 <= a <= 0xF4 && Tail(b) && Tail(c) && Tail(d);
    assert a % 8 == a - 0xF0 && b % 64 == b - 0x80 && c % 64 == c - 0x80 && d % 64 == d - 0x80;
    assert 0x10000 <= cp <= 0x10FFFF;
    assert Decode(s, i) == (cp, 4);
    EncodeQuadruple(a, b, c, d, cp);
  }

  lemma DecodeShort(s: Text, i: nat)
    requires i < |s| && 0 < CharLength(s, i) <= 2
    ensures Decode(s, i).1 == CharLength(s, i) && Scalar(Decode(s, i).0)
    ensures Encode(Decode(s, i).0) == s[i..i + CharLength(s, i)]
  {
  }

  /** A well-formed character decodes to the scalar value that encodes to it. */
  lemma DecodeWellFormed(s: Text, i: nat)
    requires i < |s| && CharLength(s, i) > 0
    ensures Decode(s, i).1 == CharLength(s, i)
    ensures Scalar(Decode(s, i).0)
    ensures Encode(Decode(s, i).0) == s[i..i + CharLength(s, i)]
  {
    hide Decode, Encode, Scalar;
    var n := CharLength(s, i);
    if n == 3 {
      DecodeTriple(s, i);
    } else if n == 4 {
      DecodeQuadruple(s, i);
    } else {
      DecodeShort(s, i);
    }
  }

  /** RFC 2781 section 2.1: the halves of a pair lie in their ranges and make up the value. */
  lemma SurrogatesMean(cp: nat)
    requires 0x10000 <= cp <= 0x10FFFF
    ensures 0xD800 <= HighSurrogate(cp) <= 0xDBFF && 0xDC00 <= LowSurrogate(cp) <= 0xDFFF
    ensures cp == 0x10000 + (HighSurrogate(cp) - 0xD800) * 1024 + (LowSurrogate(cp) - 0xDC00)
  {
    var d := cp - 0x10000;
    assert d / 1024 < 1024;
    assert d / 1024 % 1024 == d / 1024;
    assert d == d / 1024 * 1024 + d % 1024;
  }

  /** How the decoder reads a lead byte: the bytes it takes, when they are there. */
  function Demanded(lead: Byte): (n: nat) {
    if lead < 0x80 || lead >= 0xF8 then 1
    else if lead < 0xE0 then 2
    else if lead < 0xF0 then 3
    else 4
  }

  /** Malformed input: a character cut short, or started by a byte that cannot, is replaced by
      U+FFFD and one byte is taken; any other takes the bytes its lead demands. */
  lemma DecodeTakes(s: Text, i: nat)
    requires i < |s|
    ensures s[i] >= 0xF8 || |s| - i < Demanded(s[i]) ==> Decode(s, i) == (0xFFFD, 1)
    ensures s[i] < 0xF8 && |s| - i >= Demanded(s[i]) ==> Decode(s, i).1 == Demanded(s[i])
    ensures s[i] < 0x80 ==> Decode(s, i) == (s[i], 1)
  {
  }

  /** An overlong form or a surrogate is replaced by U+FFFD as a whole. */
  lemma DecodeReplaces(s: Text, i: nat)
    requires i < |s|
    ensures Decode(s, i).1 == 2 ==> Decode(s, i).0 >= 0x80
    ensures Decode(s, i).1 == 3 ==> Decode(s, i).0 >= 0x800 && !(0xD800 <= Decode(s, i).0 <= 0xDFFF)
    ensures Decode(s, i).1 == 4 ==> Decode(s, i).0 == 0xFFFD || Decode(s, i).0 >= 0x10000
  {
  }

  lemma EncodedPair(cp: nat, rest: Text)
    requires 0x7F < cp <= 0x7FF
    ensures CharLength(Encode(cp) + rest, 0) == |Encode(cp)| == 2
  {
    var s := Encode(cp) + rest;
    assert s[0] == 0xC0 + cp / 64 % 32 && s[1] == 0x80 + cp % 64;
  }

  lemma EncodedTriple(cp: nat, rest: Text)
    requires 0x7FF < cp <= 0xFFFF && Scalar(cp)
    ensures CharLength(Encode(cp) + rest, 0) == |Encode(cp)| == 3
  {
    var s := Encode(cp) + rest;
    assert s[0] == 0xE0 + cp / 4096 && s[1] == 0x80 + cp / 64 % 64 && s[2] == 0x80 + cp % 64;
    assert cp / 64 / 64 == cp / 4096;
  }

  lemma EncodedQuadruple(cp: nat, rest: Text)
    requires 0xFFFF < cp && Scalar(cp)
    ensures CharLength(Encode(cp) + rest, 0) == |Encode(cp)| == 4
  {
    var s := Encode(cp) + rest;
    assert s[0] == 0xF0 + cp / 262144 && s[1] == 0x80 + cp / 4096 % 64;
    assert s[2] == 0x80 + cp / 64 % 64 && s[3] == 0x80 + cp % 64;
    assert cp / 4096 / 64 == cp / 262144;
  }

  /** The encoding of a scalar value is one well-formed character, in any context. */
  lemma EncodeWellFormed(cp: nat, rest: Text)
    requires Scalar(cp)
    ensures Encode(cp) != []
    ensures CharLength(Encode(cp) + rest, 0) == |Encode(cp)|
  {
    if cp > 0x7F {
      hide Encode, CharLength;
      if cp <= 0x7FF {
        EncodedPair(cp, rest);
      } else if cp <= 0xFFFF {
        EncodedTriple(cp, rest);
      } else {
        EncodedQuadruple(cp, rest);
      }
    }
  }

  lemma {:induction false} ValidShift(a: Text, s: Text, i: nat)
    requires i <= |s|
    ensures ValidFrom(a + s, |a| + i) == ValidFrom(s, i)
    decreases |s| - i
  {
    var t := a + s;
    if i < |s| {
      assert CharLength(t, |a| + i) == CharLength(s, i) by {
        assert t[|a|..] == s;
        assert forall k :: i <= k < |s| ==> t[|a| + k] == s[k];
      }
      if CharLength(s, i) > 0 {
        ValidShift(a, s, i + CharLength(s, i));
      }
    }
  }

  /** Whatever the bytes were, what comes out is well-formed UTF-8. */
  lemma {:induction false} RepairFromValid(s: Text, i: nat)
    requires i <= |s|
    ensures Valid(RepairFrom(s, i))
    decreases |s| - i
  {
    if i < |s| {
      var j := i + Decode(s, i).1;
      var head, tail := Encode(Denoted(Decode(s, i).0)), RepairFrom(s, j);
      RepairFromValid(s, j);
      DecodeScalar(s, i);
      EncodeWellFormed(Denoted(Decode(s, i).0), tail);
      ValidShift(head, tail, 0);
    }
  }

  lemma {:induction false} RepairFromIdentity(s: Text, i: nat)
    requires i <= |s| && ValidFrom(s, i)
    ensures RepairFrom(s, i) == s[i..]
    decreases |s| - i
  {
    hide Decode, CharLength, Encode, Denoted, Scalar;
    if i < |s| {
      DecodeWellFormed(s, i);
      DenotedScalar(Decode(s, i).0);
      var j := i + Decode(s, i).1;
      RepairFromIdentity(s, j);
      assert s[i..] == s[i..j] + s[j..];
      assert RepairFrom(s, i) == Encode(Denoted(Decode(s, i).0)) + RepairFrom(s, j);
    }
  }

  /** Repair changes a text exactly when it is not well-formed UTF-8. */
  lemma RepairExact(s: Text)
    ensures Valid(Repair(s))
    ensures Repair(s) == s <==> Valid(s)
  {
    RepairFromValid(s, 0);
    if Valid(s) {
      RepairFromIdentity(s, 0);
    }
  }
}
