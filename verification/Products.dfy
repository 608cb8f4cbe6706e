/** Products of naturals with their laws stated one by one, so that proofs can keep the
    multiplication itself out of sight. */
module Products {
  function Times(a: nat, b: nat): (c: nat) {
    a * b
  }

  lemma DivideBack(a: nat, n: nat)
    requires n > 0
    ensures a == Times(a / n, n) + a % n
  {
  }

  lemma TimesGrows(a: nat, b: nat, n: nat)
    requires a <= b
    ensures Times(a, n) <= Times(b, n)
    ensures Times(a + 1, n) == Times(a, n) + n
  {
  }

  lemma UniqueDivision(q: nat, r: nat, n: nat)
    requires r < n
    ensures (Times(q, n) + r) / n == q && (Times(q, n) + r) % n == r
  {
    hide Times;
    var a := Times(q, n) + r;
    DivideBack(a, n);
    var p := a / n;
    if p < q {
      TimesGrows(p + 1, q, n);
      TimesGrows(p, q, n);
    } else if p > q {
      TimesGrows(q + 1, p, n);
      TimesGrows(q, p, n);
    }
  }

  lemma DivideBelow(v: nat, q: nat, n: nat)
    requires n > 0
    ensures v / n < q <==> v < Times(q, n)
  {
    hide Times;
    DivideBack(v, n);
    if v / n < q {
      TimesGrows(v / n + 1, q, n);
      TimesGrows(v / n, q, n);
    } else {
      TimesGrows(q, v / n, n);
    }
  }

  lemma TimesZero(n: nat)
    ensures Times(0, n) == 0
  {
  }

  lemma TimesSum(a: nat, b: nat, n: nat)
    ensures Times(a + b, n) == Times(a, n) + Times(b, n)
  {
  }

  lemma TimesOrder(a: nat, b: nat, c: nat)
    requires b <= c
    ensures Times(a, b) <= Times(a, c)
    ensures Times(a, 2 * b) == 2 * Times(a, b)
  {
  }

  lemma DivisionFits(a: nat, b: nat)
    requires b > 0
    ensures Times(b, a / b) <= a && a / b <= a
  {
  }
}
