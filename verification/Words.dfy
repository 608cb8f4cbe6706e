/** Unsigned 64-bit words and exclusive or on them. */
module Words {
  const TWO_64: int := 0x1_0000_0000_0000_0000

  type Word = x: int | 0 <= x < TWO_64

  function Power2(n: nat): (p: nat)
    ensures p > 0
  {
    if n == 0 then 1 else 2 * Power2(n - 1)
  }

  /** Exclusive or of the lowest `n` bits. */
  function XorBits(a: nat, b: nat, n: nat): (c: nat)
    ensures c < Power2(n)
  {
    if n == 0 then 0
    else 2 * XorBits(a / 2, b / 2, n - 1) + BitXor(a % 2, b % 2)
  }

  function BitXor(a: nat, b: nat): (c: nat)
    ensures c < 2
  {
    if a == b then 0 else 1
  }

  lemma SixtyFour()
    ensures Power2(64) == TWO_64
  {
    assert Power2(8) == 0x100;
    assert Power2(16) == 0x1_0000;
    assert Power2(24) == 0x100_0000;
    assert Power2(32) == 0x1_0000_0000;
    assert Power2(40) == 0x100_0000_0000;
    assert Power2(48) == 0x1_0000_0000_0000;
    assert Power2(56) == 0x100_0000_0000_0000;
  }

  function Xor(a: Word, b: Word): (c: Word) {
    SixtyFour();
    XorBits(a, b, 64)
  }

  lemma XorBitsParts(a: nat, b: nat, n: nat)
    requires n > 0
    ensures XorBits(a, b, n) / 2 == XorBits(a / 2, b / 2, n - 1)
    ensures XorBits(a, b, n) % 2 == BitXor(a % 2, b % 2)
  {
  }

  lemma {:induction false} XorBitsCommute(a: nat, b: nat, n: nat)
    ensures XorBits(a, b, n) == XorBits(b, a, n)
  {
    if n > 0 {
      XorBitsCommute(a / 2, b / 2, n - 1);
    }
  }

  lemma {:induction false} XorBitsAssociate(a: nat, b: nat, c: nat, n: nat)
    ensures XorBits(XorBits(a, b, n), c, n) == XorBits(a, XorBits(b, c, n), n)
  {
    if n > 0 {
      hide XorBits;
      var ab, bc := XorBits(a, b, n), XorBits(b, c, n);
      XorBitsParts(a, b, n);
      XorBitsParts(b, c, n);
      XorBitsParts(ab, c, n);
      XorBitsParts(a, bc, n);
      XorBitsAssociate(a / 2, b / 2, c / 2, n - 1);
    }
  }

  lemma {:induction false} XorBitsZero(a: nat, n: nat)
    requires a < Power2(n)
    ensures XorBits(a, 0, n) == a
  {
    if n > 0 {
      XorBitsZero(a / 2, n - 1);
    }
  }

  lemma {:induction false} XorBitsCancel(a: nat, b: nat, c: nat, n: nat)
    requires b < Power2(n) && c < Power2(n) && XorBits(a, b, n) == XorBits(a, c, n)
    ensures b == c
  {
    if n > 0 {
      hide XorBits;
      XorBitsParts(a, b, n);
      XorBitsParts(a, c, n);
      XorBitsCancel(a / 2, b / 2, c / 2, n - 1);
    }
  }

  lemma {:induction false} XorBitsSelf(a: nat, n: nat)
    ensures XorBits(a, a, n) == 0
  {
    if n > 0 {
      XorBitsSelf(a / 2, n - 1);
    }
  }

  /** Bit `i` of a number, the lowest one being bit 0. */
  function BitAt(x: nat, i: nat): (b: nat) {
    if i == 0 then x % 2 else BitAt(x / 2, i - 1)
  }

  lemma {:induction false} XorBitsAt(a: nat, b: nat, n: nat, i: nat)
    requires i < n
    ensures BitAt(XorBits(a, b, n), i) == (BitAt(a, i) + BitAt(b, i)) % 2
  {
    hide XorBits;
    XorBitsParts(a, b, n);
    if i > 0 {
      XorBitsAt(a / 2, b / 2, n - 1, i - 1);
    }
  }

  /** Every bit of the result is the sum of the two bits without the carry. */
  lemma XorAt(a: Word, b: Word, i: nat)
    requires i < 64
    ensures BitAt(Xor(a, b), i) == (BitAt(a, i) + BitAt(b, i)) % 2
  {
    hide XorBits, Power2;
    SixtyFour();
    XorBitsAt(a, b, 64, i);
  }

  /** Combining with the same word twice changes nothing. */
  lemma XorTwice(a: Word, b: Word)
    ensures Xor(b, b) == 0 && Xor(Xor(a, b), b) == a
  {
    hide XorBits, Power2;
    SixtyFour();
    XorBitsSelf(b, 64);
    XorLaws(a, b, b);
  }

  /** Exclusive or is commutative and associative, and zero is neutral. */
  lemma XorLaws(a: Word, b: Word, c: Word)
    ensures Xor(a, b) == Xor(b, a) && Xor(Xor(a, b), c) == Xor(a, Xor(b, c))
    ensures Xor(a, 0) == a
  {
    hide XorBits, Power2;
    SixtyFour();
    XorBitsCommute(a, b, 64);
    XorBitsAssociate(a, b, c, 64);
    XorBitsZero(a, 64);
  }

  /** Either argument can be cancelled. */
  lemma XorCancels(a: Word, b: Word, c: Word)
    ensures Xor(a, b) == Xor(a, c) <==> b == c
    ensures Xor(b, a) == Xor(c, a) <==> b == c
  {
    hide XorBits, Power2;
    SixtyFour();
    XorBitsCommute(a, b, 64);
    XorBitsCommute(a, c, 64);
    if Xor(a, b) == Xor(a, c) {
      XorBitsCancel(a, b, c, 64);
    }
  }
}
