/** The platform-independent integer distribution over a 64-bit engine. */
module Random {
  import opened Products
  import opened Words

  const TWO_32: int := 0x1_0000_0000
  const TWO_31: int := 0x8000_0000
  const ALL_BITS: int := 0xFFFF_FFFF_FFFF_FFFF

  type Int32 = x: int | -TWO_31 <= x < TWO_31

  /** The engine as the stream of values it will produce. */
  class Engine {
    const stream: nat -> Word
    var position: nat

    constructor (stream: nat -> Word)
      ensures this.stream == stream && position == 0
    {
      this.stream, position := stream, 0;
    }

    method Draw() returns (v: Word)
      modifies this`position
      ensures v == stream(old(position)) && position == old(position) + 1
    {
      v := stream(position);
      position := position + 1;
    }
  }

  /** Bitwise or. */
  function Or(a: nat, b: nat): nat {
    if a == 0 then b
    else if b == 0 then a
    else 2 * Or(a / 2, b / 2) + if a % 2 == 1 || b % 2 == 1 then 1 else 0
  }

  function ShiftLeft(a: Word, bits: nat): Word
    decreases bits
  {
    if bits == 0 then a else ShiftLeft((2 * a) % TWO_64, bits - 1)
  }

  lemma {:induction false} ShiftZero(bits: nat)
    ensures ShiftLeft(0, bits) == 0
  {
    if bits > 0 {
      ShiftZero(bits - 1);
    }
  }

  // ----- Which draws are kept -----

  /** The test of operator() on a draw that fills the mask. */
  predicate Accepted(v: Word, index: nat)
    requires index > 0
  {
    v / index < ALL_BITS / index || ALL_BITS % index == index - 1
  }

  /** Accepted draws are those below the largest multiple of the bound that fits in 64 bits. */
  lemma AcceptedIsBelow(v: Word, index: nat)
    requires 0 < index <= TWO_64
    ensures Accepted(v, index) <==> v < Times(TWO_64 / index, index)
  {
    hide Times;
    var q, r := ALL_BITS / index, ALL_BITS % index;
    DivideBack(ALL_BITS, index);
    DivideBelow(v, q, index);
    if r == index - 1 {
      TimesGrows(q, q, index);
      UniqueDivision(q + 1, 0, index);
    } else {
      UniqueDivision(q, r + 1, index);
    }
  }

  // ----- Exact uniformity -----

  /** The draws below the q-th multiple of `index` that have residue `r`. */
  function Residues(index: nat, r: nat, q: nat): set<int> {
    if q == 0 then {} else Residues(index, r, q - 1) + {Times(q - 1, index) + r}
  }

  lemma NextResidue(index: nat, r: nat, q: nat, v: nat)
    requires r < index && q > 0
    ensures v % index == r && Times(q - 1, index) <= v < Times(q, index) <==> v == Times(q - 1, index) + r
  {
    hide Times;
    UniqueDivision(q - 1, r, index);
    TimesGrows(q - 1, q, index);
    DivideBelow(v, q, index);
    DivideBelow(v, q - 1, index);
    DivideBack(v, index);
  }

  lemma {:induction false} ResidueMember(index: nat, r: nat, q: nat, v: nat)
    requires r < index
    ensures v in Residues(index, r, q) <==> v < Times(q, index) && v % index == r
  {
    hide Times;
    if q == 0 {
      DivideBelow(v, 0, index);
    } else {
      ResidueMember(index, r, q - 1, v);
      NextResidue(index, r, q, v);
      TimesGrows(q - 1, q, index);
    }
  }

  lemma {:induction false} ResidueCount(index: nat, r: nat, q: nat)
    requires r < index
    ensures |Residues(index, r, q)| == q
    ensures forall v :: v in Residues(index, r, q) ==> 0 <= v
  {
    hide Times;
    if q > 0 {
      ResidueCount(index, r, q - 1);
      ResidueMember(index, r, q - 1, Times(q - 1, index) + r);
    }
  }

  lemma ResiduesExact(index: nat, r: nat, q: nat)
    requires r < index
    ensures forall v :: v in Residues(index, r, q) <==> 0 <= v < Times(q, index) && v % index == r
    ensures |Residues(index, r, q)| == q
  {
    hide Times, Residues;
    ResidueCount(index, r, q);
    forall v: nat
      ensures v in Residues(index, r, q) <==> v < Times(q, index) && v % index == r
    {
      ResidueMember(index, r, q, v);
    }
  }

  /** Every residue is produced by exactly floor(2^64 / index) accepted draws. */
  lemma Uniform(index: nat, r: nat)
    requires 2 <= index <= TWO_64 && r < index
    ensures |set v: Word | Accepted(v, index) && v % index == r| == TWO_64 / index
  {
    hide Times, Accepted;
    var q := TWO_64 / index;
    ResiduesExact(index, r, q);
    DivideBack(TWO_64, index);
    forall v: Word
      ensures Accepted(v, index) <==> v < Times(q, index)
    {
      AcceptedIsBelow(v, index);
    }
    assert (set v: Word | Accepted(v, index) && v % index == r) == Residues(index, r, q);
  }

  /** Strictly more than half of all draws are accepted. */
  lemma MoreThanHalf(index: nat)
    requires 2 <= index <= TWO_64
    ensures 2 * |set v: Word | Accepted(v, index)| > TWO_64
  {
    hide Times, Accepted;
    var q := TWO_64 / index;
    var n := Times(q, index);
    DivideBack(TWO_64, index);
    forall v: Word
      ensures Accepted(v, index) <==> v < n
    {
      AcceptedIsBelow(v, index);
    }
    ResiduesExact(1, 0, n);
    DivideBack(n, 1);
    assert (set v: Word | Accepted(v, index)) == Residues(1, 0, n);
    DivideBelow(index, q + 1, index);
    if q >= 1 {
      TimesGrows(1, q, index);
    }
    TimesGrows(0, 1, index);
  }

  // ----- _Rng_from_urng -----

  ghost predicate Hits(e: Engine, k: nat, index: nat)
    requires index > 0
  {
    Accepted(e.stream(k), index)
  }

  /** The value the sampler gives when its first accepted draw is the k-th. */
  ghost predicate FirstHit(e: Engine, from: nat, k: nat, index: nat)
    requires index > 0
  {
    from <= k && Hits(e, k, index) && forall j :: from <= j < k ==> !Hits(e, j, index)
  }

  class RngFromUrng {
    const engine: Engine
    var bits: nat
    var bitMask: Word

    ghost predicate Valid()
      reads this
    {
      bits == 8 && bitMask == ALL_BITS
    }

    /** The engine has full range, so the mask is never narrowed. */
    constructor (engine: Engine)
      ensures Valid() && this.engine == engine
    {
      this.engine := engine;
      bits, bitMask := 8, ALL_BITS;
    }

    method GetBits() returns (v: Word)
      requires Valid()
      modifies engine`position
      ensures v == engine.stream(old(engine.position)) && engine.position == old(engine.position) + 1
    {
      v := engine.Draw();
    }

    /** The inner loop of operator(): one draw fills the mask, and a bound of one needs none. */
    method Sample(index: nat) returns (ret: Word, mask: Word)
      requires Valid() && 0 < index < TWO_64
      modifies engine`position
      ensures index == 1 ==> ret == 0 && mask == 0 && engine.position == old(engine.position)
      ensures index > 1 ==>
        && ret == engine.stream(old(engine.position)) && mask == ALL_BITS
        && engine.position == old(engine.position) + 1
    {
      ret, mask := 0, 0;
      while mask < index - 1
        invariant mask == 0 || (mask == ALL_BITS && index > 1)
        invariant mask == 0 ==> ret == 0 && engine.position == old(engine.position)
        invariant mask == ALL_BITS ==>
            ret == engine.stream(old(engine.position)) && engine.position == old(engine.position) + 1
        decreases ALL_BITS - mask
      {
        ShiftZero(bits - 1);
        ShiftZero(1);
        ret := ShiftLeft(ShiftLeft(ret, bits - 1), 1);
        var drawn := GetBits();
        ret := Or(ret, drawn);
        mask := ShiftLeft(ShiftLeft(mask, bits - 1), 1);
        mask := Or(mask, bitMask);
      }
    }

    /** operator(): the first accepted draw of the stream, reduced. */
    method Next(index: nat) returns (r: nat)
      requires Valid() && 0 < index < TWO_64
      requires index > 1 ==> exists k :: k >= engine.position && Hits(engine, k, index)
      modifies engine`position
      ensures r < index
      ensures index == 1 ==> engine.position == old(engine.position)
      ensures index > 1 ==>
        && engine.position > old(engine.position)
        && FirstHit(engine, old(engine.position), engine.position - 1, index)
        && r == engine.stream(engine.position - 1) % index
    {
      hide Accepted;
      ghost var hit := engine.position;
      if index > 1 {
        hit :| hit >= engine.position && Hits(engine, hit, index);
      }
      while true
        invariant old(engine.position) <= engine.position
        invariant index > 1 ==> engine.position <= hit
        invariant index == 1 ==> engine.position == old(engine.position)
        invariant forall j :: old(engine.position) <= j < engine.position ==> !Hits(engine, j, index)
        decreases hit - engine.position
      {
        var ret, mask := Sample(index);
        if ret / index < mask / index || mask % index == index - 1 {
          AcceptedBy(ret, mask, index);
          return ret % index;
        }
        AcceptedBy(ret, mask, index);
      }
    }

    /** _Get_all_bits: as many draws as there are steps of `bits` below eight, so one. */
    method GetAllBits() returns (ret: Word)
      requires Valid()
      modifies engine`position
      ensures ret == engine.stream(old(engine.position)) && engine.position == old(engine.position) + 1
    {
      ret := 0;
      var num := 0;
      while num < 8
        invariant num == 0 || num == 8
        invariant num == 0 ==> ret == 0 && engine.position == old(engine.position)
        invariant num == 8 ==>
            ret == engine.stream(old(engine.position)) && engine.position == old(engine.position) + 1
        decreases 8 - num
      {
        ShiftZero(bits - 1);
        ShiftZero(1);
        ret := ShiftLeft(ShiftLeft(ret, bits - 1), 1);
        var drawn := GetBits();
        ret := Or(ret, drawn);
        num := num + bits;
      }
    }
  }

  /** The test on a sample says what Accepted says of a draw that fills the mask. */
  lemma AcceptedBy(ret: Word, mask: Word, index: nat)
    requires 0 < index && (mask == ALL_BITS || (index == 1 && mask == ret == 0))
    ensures mask == ALL_BITS ==>
      (Accepted(ret, index) <==> ret / index < mask / index || mask % index == index - 1)
    ensures index == 1 && mask == 0 ==> mask % index == index - 1
  {
  }

  // ----- uniform_int -----

  /** Conversion of a signed 32-bit value to unsigned, and back. */
  function ToUnsigned(x: Int32): (u: nat)
    ensures u < TWO_32 && (u - x) % TWO_32 == 0
  {
    if x >= 0 then x else x + TWO_32
  }

  function ToSigned(u: nat): (x: Int32)
    requires u < TWO_32
    ensures ToUnsigned(x) == u
  {
    if u < TWO_31 then u else u - TWO_32
  }

  /** _Adjust for signed types: order on the adjusted values is the signed order. */
  function Adjust(u: nat): (v: nat)
    requires u < TWO_32
    ensures v < TWO_32 && (v < TWO_31 <==> u >= TWO_31)
  {
    if u < TWO_31 then u + TWO_31 else u - TWO_31
  }

  /** Adjusting undoes itself and carries signed order to unsigned order. */
  lemma AdjustIsOrder(x: Int32, y: Int32)
    ensures Adjust(Adjust(ToUnsigned(x))) == ToUnsigned(x)
    ensures ToSigned(Adjust(Adjust(ToUnsigned(x)))) == x
    ensures Adjust(ToUnsigned(x)) - Adjust(ToUnsigned(y)) == x - y
  {
  }

  lemma AdjustedSum(min: Int32, offset: nat)
    requires min + offset < TWO_31
    ensures ToSigned(Adjust((offset + Adjust(ToUnsigned(min))) % TWO_32)) == min + offset
  {
  }

  /** What a distribution over `span` values gives: the residue of the first accepted draw,
      or zero without a draw when there is only one value. */
  ghost predicate Drawn(e: Engine, from: nat, to: nat, span: nat, offset: int)
    requires span > 0
  {
    if span == 1 then to == from && offset == 0
    else to > from && FirstHit(e, from, to - 1, span) && offset == e.stream(to - 1) % span
  }

  ghost predicate CanDraw(e: Engine, from: nat, span: nat)
    requires span > 0
  {
    span > 1 ==> exists k :: k >= from && Hits(e, k, span)
  }

  lemma FullRangeHits(e: Engine, k: nat, span: nat)
    requires span == TWO_64 || span == TWO_32
    ensures Hits(e, k, span) && (span == TWO_64 ==> e.stream(k) % span == e.stream(k))
  {
    if span == TWO_32 {
      assert ALL_BITS == (TWO_32 - 1) * TWO_32 + (TWO_32 - 1);
    }
  }

  /** _Eval for uint64_t. */
  method EvalUnsigned64(engine: Engine, min: Word, max: Word) returns (r: Word)
    requires min <= max && CanDraw(engine, engine.position, max - min + 1)
    modifies engine`position
    ensures min <= r <= max
    ensures Drawn(engine, old(engine.position), engine.position, max - min + 1, r - min)
  {
    hide Accepted;
    var rng := new RngFromUrng(engine);
    var uret: Word;
    if (max - min) % TWO_64 == ALL_BITS {
      uret := rng.GetAllBits();
      FullRangeHits(engine, engine.position - 1, TWO_64);
    } else {
      uret := rng.Next((max - min + 1) % TWO_64);
    }
    r := (uret + min) % TWO_64;
  }

  /** _Eval for int32_t. */
  method EvalInt32(engine: Engine, min: Int32, max: Int32) returns (r: Int32)
    requires min <= max && CanDraw(engine, engine.position, max - min + 1)
    modifies engine`position
    ensures min <= r <= max
    ensures Drawn(engine, old(engine.position), engine.position, max - min + 1, r - min)
  {
    hide Accepted, Adjust, ToUnsigned, ToSigned;
    var rng := new RngFromUrng(engine);
    var umin := Adjust(ToUnsigned(min));
    var umax := Adjust(ToUnsigned(max));
    AdjustIsOrder(max, min);
    var uret: nat;
    if umax - umin == TWO_32 - 1 {
      var all := rng.GetAllBits();
      uret := all % TWO_32;
      FullRangeHits(engine, engine.position - 1, TWO_32);
    } else {
      uret := rng.Next(umax - umin + 1);
    }
    AdjustedSum(min, uret);
    r := ToSigned(Adjust((uret + umin) % TWO_32));
  }

  /** Among all raw draws, each value of a range is produced by the same number of accepted
      ones: floor(2^64 / size of the range). */
  lemma EachValueEquallyOften(min: int, span: nat, value: int)
    requires 2 <= span <= TWO_64 && min <= value < min + span
    ensures |set v: Word | Accepted(v, span) && min + v % span == value| == TWO_64 / span
  {
    hide Accepted;
    Uniform(span, value - min);
    assert (set v: Word | Accepted(v, span) && min + v % span == value)
        == (set v: Word | Accepted(v, span) && v % span == value - min);
  }
}
