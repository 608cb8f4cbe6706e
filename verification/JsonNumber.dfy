/** Integers as JSON text: the digit writer (uintToString, valueToString) and the two
    integer decoders (OurReader::decodeNumber and the older Reader::decodeNumber). */
module JsonNumber {
  import opened Bytes

  newtype uint64 = x: int | 0 <= x < 0x1_0000_0000_0000_0000
  newtype int64 = x: int | -0x8000_0000_0000_0000 <= x < 0x8000_0000_0000_0000

  const MAX_LARGEST_UINT := 0xFFFF_FFFF_FFFF_FFFF
  const MAX_LARGEST_INT := 0x7FFF_FFFF_FFFF_FFFF
  const MIN_LARGEST_INT := -0x8000_0000_0000_0000
  const MAX_INT := 0x7FFF_FFFF
  const BUFFER_SIZE := 25 // uintToStringBufferSize: 3 * sizeof(LargestUInt) + 1
  const MINUS: Byte := 45

  predicate IsDigit(c: Byte) { 48 <= c <= 57 }

  /** Decimal notation, without leading zeros. */
  function Digits(n: nat): (t: Text)
    ensures t != [] && forall k :: 0 <= k < |t| ==> IsDigit(t[k])
  {
    if n < 10 then [48 + n] else Digits(n / 10) + [48 + n % 10]
  }

  function IntegerText(n: int): Text {
    if n < 0 then [MINUS] + Digits(-n) else Digits(n)
  }

  predicate AllDigits(t: Text) {
    forall k :: 0 <= k < |t| ==> IsDigit(t[k])
  }

  /** The number a digit string denotes; 0 for the empty one. */
  function Denoted(t: Text): nat
    requires AllDigits(t)
  {
    if t == [] then 0 else Denoted(t[..|t| - 1]) * 10 + (t[|t| - 1] - 48)
  }

  lemma {:induction false} DenotedMonotone(t: Text, k: nat)
    requires AllDigits(t) && k <= |t|
    ensures Denoted(t[..k]) <= Denoted(t)
    decreases |t|
  {
    if k < |t| {
      var front := t[..|t| - 1];
      DenotedMonotone(front, k);
      assert front[..k] == t[..k];
    } else {
      assert t[..k] == t;
    }
  }

  lemma {:induction false} DigitsDenote(n: nat)
    ensures Denoted(Digits(n)) == n
  {
    if n >= 10 {
      DigitsDenote(n / 10);
      var t := Digits(n);
      assert t[..|t| - 1] == Digits(n / 10);
    }
  }

  /** No leading zeros, so a number has only one printed form. */
  lemma {:induction false} DigitsLead(n: nat)
    ensures Digits(n)[0] == 48 <==> n == 0
    ensures n == 0 ==> Digits(n) == [48]
  {
    if n >= 10 {
      DigitsLead(n / 10);
    }
  }

  /** The number of digits, hence of buffer cells, that a number below 10^k needs. */
  lemma {:induction false} DigitsLength(n: nat, k: nat)
    requires n < Power10(k) && k > 0
    ensures |Digits(n)| <= k
  {
    if n >= 10 {
      DigitsLength(n / 10, k - 1);
    }
  }

  function Power10(k: nat): (p: nat)
    ensures p > 0
  { if k == 0 then 1 else 10 * Power10(k - 1) }

  lemma Power10Of20()
    ensures Power10(20) == 100_000_000_000_000_000_000
  {
    assert Power10(5) == 100_000;
    assert Power10(10) == 10_000_000_000;
    assert Power10(15) == 1_000_000_000_000_000;
  }

  lemma DigitsOfUint64(n: nat)
    requires n <= MAX_LARGEST_UINT
    ensures |Digits(n)| <= 20
  {
    Power10Of20();
    DigitsLength(n, 20);
  }

  /** The digits the writing loop still has to produce. */
  function Pending(n: nat): Text { if n == 0 then [] else Digits(n) }

  lemma PendingStep(n: nat, written: Text)
    requires n > 0
    ensures Pending(n) + written == Pending(n / 10) + ([48 + n % 10] + written)
  {
  }

  lemma PendingStart(n: nat)
    ensures Pending(n / 10) + [48 + n % 10, 0] == Digits(n) + [0]
  {
  }

  lemma PendingEnd(written: Text)
    ensures Pending(0) + written == written
  {
  }

  lemma PendingLength(n: nat, written: Text, value: nat)
    requires n > 0 && value <= MAX_LARGEST_UINT
    requires Pending(n) + written == Digits(value) + [0]
    ensures 1 + |written| <= 21
  {
    DigitsOfUint64(value);
    assert |Pending(n) + written| == |Digits(value)| + 1;
  }

  /** uintToString: writes a terminator and then the digits backwards from `current`.
      It stays inside the buffer whenever the documented space is free. */
  method UintToString(value: uint64, buffer: array<Byte>, current: nat) returns (start: nat)
    requires BUFFER_SIZE <= current <= buffer.Length
    modifies buffer
    ensures current - 21 <= start < current - 1
    ensures buffer[start..current] == Digits(value as int) + [0]
    ensures forall k :: 0 <= k < start || current <= k < buffer.Length ==> buffer[k] == old(buffer[k])
  {
    hide Digits, Pending;
    start := current - 1;
    buffer[start] := 0;
    var rest := value;
    start := start - 1;
    buffer[start] := (rest % 10) as int + 48;
    rest := rest / 10;
    assert buffer[start..current] == [48 + value as int % 10, 0];
    PendingStart(value as int);
    while rest != 0
      invariant 0 <= start < current - 1
      invariant Pending(rest as int) + buffer[start..current] == Digits(value as int) + [0]
      invariant forall k :: 0 <= k < start || current <= k < buffer.Length ==> buffer[k] == old(buffer[k])
    {
      ghost var written := buffer[start..current];
      var digit: Byte := 48 + (rest % 10) as int;
      PendingStep(rest as int, written);
      PendingLength(rest as int, written, value as int);
      start := start - 1;
      buffer[start] := digit;
      assert buffer[start..current] == [digit] + written;
      rest := rest / 10;
    }
    PendingEnd(buffer[start..current]);
    DigitsOfUint64(value as int);
    assert |buffer[start..current]| == |Digits(value as int)| + 1;
  }

  /** The C string that starts at `start` of a buffer whose last cell ends it. */
  lemma Terminated(cells: Text, digits: Text)
    requires cells == digits + [0]
    ensures cells[..|cells| - 1] == digits
  {
  }

  /** valueToString for signed integers: what stands in the buffer up to the terminator. */
  method IntToString(value: int64) returns (text: Text)
    ensures text == IntegerText(value as int)
  {
    hide Digits;
    var buffer := new Byte[BUFFER_SIZE](_ => 0);
    var current: nat;
    var end: nat := buffer.Length - 1;
    if value >= 0 {
      current := UintToString(value as uint64, buffer, buffer.Length);
    } else if value == MIN_LARGEST_INT as int64 {
      current := UintToString(MAX_LARGEST_INT as uint64 + 1, buffer, buffer.Length);
    } else {
      current := UintToString((-value) as uint64, buffer, buffer.Length);
    }
    ghost var digits := buffer[current..end];
    Terminated(buffer[current..buffer.Length], Digits(if value < 0 then -(value as int) else value as int));
    assert digits == buffer[current..buffer.Length][..end - current];
    if value < 0 {
      current := current - 1;
      buffer[current] := MINUS;
      assert buffer[current..end] == [MINUS] + digits;
    }
    text := buffer[current..end];
  }

  /** valueToString for unsigned integers. */
  method UintToText(value: uint64) returns (text: Text)
    ensures text == IntegerText(value as int)
  {
    hide Digits;
    var buffer := new Byte[BUFFER_SIZE](_ => 0);
    var end: nat := buffer.Length - 1;
    var current := UintToString(value, buffer, buffer.Length);
    Terminated(buffer[current..buffer.Length], Digits(value as int));
    text := buffer[current..end];
    assert text == buffer[current..buffer.Length][..end - current];
  }

  // ----- decoding -----

  /** What a number token becomes; `Fallback` is left to the floating-point decoder. */
  datatype Integer = Signed(i: int) | Unsigned(u: nat) | Fallback

  predicate Negative(t: Text) { t != [] && t[0] == MINUS }

  function Magnitude(t: Text): Text { if Negative(t) then t[1..] else t }

  /** The largest magnitude an integer of this sign can have. */
  function Limit(negative: bool): nat {
    if negative then 0x8000_0000_0000_0000 else MAX_LARGEST_UINT
  }

  /** The exact meaning of integer decoding: the denoted number when the text is an
      optionally negated digit string in range, the fallback otherwise. Positive
      numbers above `signedLimit` come out unsigned. */
  function DecodedInteger(t: Text, signedLimit: nat): Integer {
    var digits := Magnitude(t);
    if !AllDigits(digits) then Fallback else
    var n: int := Denoted(digits);
    if n > Limit(Negative(t)) then Fallback
    else if Negative(t) then Signed(-n)
    else if n <= signedLimit then Signed(n)
    else Unsigned(n)
  }

  lemma DigitStep(t: Text, k: nat)
    requires k < |t| && AllDigits(t[..k]) && IsDigit(t[k])
    ensures AllDigits(t[..k + 1])
    ensures Denoted(t[..k + 1]) == Denoted(t[..k]) * 10 + (t[k] - 48)
  {
    assert t[..k + 1][..k] == t[..k];
  }

  /** Once the accumulated value is past what fits, no continuation is in range. */
  lemma TooBig(t: Text, k: nat, max: nat)
    requires k < |t| && AllDigits(t[..k]) && IsDigit(t[k])
    requires Denoted(t[..k]) >= max / 10
    requires Denoted(t[..k]) > max / 10 || k + 1 < |t| || t[k] - 48 > max % 10
    requires max >= 10
    ensures AllDigits(t) ==> Denoted(t) > max
  {
    if AllDigits(t) {
      DigitStep(t, k);
      DenotedMonotone(t, k + 1);
      if k + 1 < |t| {
        DigitStep(t, k + 1);
        DenotedMonotone(t, k + 2);
      }
    }
  }

  /** The loop of OurReader::decodeNumber, in 64-bit arithmetic that never overflows. */
  method DecodeNumber(text: Text) returns (r: Integer)
    requires text != []
    ensures r == DecodedInteger(text, MAX_LARGEST_INT)
  {
    var isNegative := text[0] == MINUS;
    var current: nat := if isNegative then 1 else 0;
    ghost var digits := Magnitude(text);
    ghost var skipped: nat := current;
    assert text[skipped..] == digits;

    var positiveThreshold: uint64 := MAX_LARGEST_UINT as uint64 / 10;
    var positiveLastDigit: uint64 := MAX_LARGEST_UINT as uint64 % 10;
    var negativeThreshold: uint64 := 922337203685477580; // -(minLargestInt / 10)
    var negativeLastDigit: uint64 := 8;                  // -(minLargestInt % 10)
    var threshold := if isNegative then negativeThreshold else positiveThreshold;
    var maxLastDigit := if isNegative then negativeLastDigit else positiveLastDigit;
    var value: uint64 := 0;
    while current < |text|
      invariant skipped <= current <= |text|
      invariant AllDigits(digits[..current - skipped])
      invariant value as int == Denoted(digits[..current - skipped]) <= Limit(isNegative)
    {
      var c := text[current];
      ghost var k := current - skipped;
      assert c == digits[k];
      current := current + 1;
      if c < 48 || c > 57 {
        return Fallback;
      }
      var digit := (c - 48) as uint64;
      if value >= threshold {
        if value > threshold || current != |text| || digit > maxLastDigit {
          TooBig(digits, k, Limit(isNegative));
          return Fallback;
        }
      }
      value := value * 10 + digit;
      DigitStep(digits, k);
    }
    assert digits[..current - skipped] == digits;
    if isNegative {
      var lastDigit := (value % 10) as int64;
      r := Signed((-((value / 10) as int64) * 10 - lastDigit) as int);
    } else if value <= MAX_LARGEST_INT as uint64 {
      r := Signed(value as int);
    } else {
      r := Unsigned(value as int);
    }
  }

  lemma NoDigits()
    ensures Denoted([]) == 0
  {
  }

  /** The loop of the older Reader::decodeNumber: other thresholds, and 32 bits decide
      whether a positive number is stored signed. */
  method DecodeNumberOld(text: Text) returns (r: Integer)
    requires text != []
    ensures r == DecodedInteger(text, MAX_INT)
  {
    hide Denoted;
    NoDigits();
    var isNegative := text[0] == MINUS;
    var current: nat := if isNegative then 1 else 0;
    ghost var digits := Magnitude(text);
    ghost var skipped: nat := current;
    assert text[skipped..] == digits;

    var maxIntegerValue: uint64 :=
      if isNegative then MAX_LARGEST_INT as uint64 + 1 else MAX_LARGEST_UINT as uint64;
    var threshold := maxIntegerValue / 10;
    var value: uint64 := 0;
    while current < |text|
      invariant skipped <= current <= |text|
      invariant AllDigits(digits[..current - skipped])
      invariant value as int == Denoted(digits[..current - skipped]) <= Limit(isNegative)
    {
      var c := text[current];
      ghost var k := current - skipped;
      assert c == digits[k];
      current := current + 1;
      if c < 48 || c > 57 {
        return Fallback;
      }
      var digit := (c - 48) as uint64;
      if value >= threshold {
        if value > threshold || current != |text| || digit > maxIntegerValue % 10 {
          TooBig(digits, k, Limit(isNegative));
          return Fallback;
        }
      }
      value := value * 10 + digit;
      DigitStep(digits, k);
    }
    assert digits[..current - skipped] == digits;
    if isNegative && value == maxIntegerValue {
      r := Signed(MIN_LARGEST_INT);
    } else if isNegative {
      r := Signed((-(value as int64)) as int);
    } else if value <= MAX_INT as uint64 {
      r := Signed(value as int);
    } else {
      r := Unsigned(value as int);
    }
  }

  function NumberOf(r: Integer): int
    requires !r.Fallback?
  { if r.Signed? then r.i else r.u }

  /** The two decoders agree on the number and on when to fall back; they disagree
      on signedness exactly for positive numbers between 2^31 and 2^63 - 1. */
  lemma DecodersAgree(t: Text)
    ensures var r, older := DecodedInteger(t, MAX_LARGEST_INT), DecodedInteger(t, MAX_INT);
      && r.Fallback? == older.Fallback?
      && (!r.Fallback? ==> NumberOf(r) == NumberOf(older))
      && (r == older <==> r.Fallback? || !(0x7FFF_FFFF < NumberOf(r) <= 0x7FFF_FFFF_FFFF_FFFF))
  {
  }

  /** Decoding a printed integer returns it, never the fallback, and signed exactly
      when it fits the signed type. */
  lemma PrintedIntegerDecodes(n: int)
    requires MIN_LARGEST_INT <= n <= MAX_LARGEST_UINT
    ensures IntegerText(n) != []
    ensures DecodedInteger(IntegerText(n), MAX_LARGEST_INT)
         == if n <= MAX_LARGEST_INT then Signed(n) else Unsigned(n)
  {
    var m: nat := if n < 0 then -n else n;
    DigitsDenote(m);
    var t := IntegerText(n);
    assert Magnitude(t) == Digits(m);
  }
}
