/** Hashing of data handlers: FNV-1a over the bytes of each element, folded with a rotation,
    and what a single changed byte does to the key of the archive. */
module HandlerHash {
  import opened Bytes
  import opened DataTypes
  import Addressing = ArrayWrappers
  import Recordings
  import opened Words

  /** An element by the bytes that represent it. */
  type Element = seq<Byte>

  const FNV_OFFSET_BASIS: Word := 14695981039346656037

  /** Multiplication by the FNV prime. */
  function TimesPrime(x: Word): (r: Word) {
    (x * 1099511628211) % TWO_64
  }

  lemma RemainderIs(x: Word, k: int)
    ensures (x + k * TWO_64) % TWO_64 == x
  {
  }

  /** The prime is odd, so multiplying by its inverse modulo 2^64 undoes the step. */
  lemma TimesPrimeUndone(x: Word)
    ensures (TimesPrime(x) * 14886173955864302971) % TWO_64 == x
  {
    var w: int := x;
    var overflow := (w * 1099511628211) / TWO_64;
    var r: int := TimesPrime(x);
    assert r == w * 1099511628211 - overflow * TWO_64;
    assert r * 14886173955864302971 == w + (w * 887285111055 - overflow * 14886173955864302971) * TWO_64;
    RemainderIs(x, w * 887285111055 - overflow * 14886173955864302971);
  }

  /** One step of _Fnv1a_append_bytes. */
  function Mix(val: Word, b: Byte): Word {
    TimesPrime(Xor(val, b))
  }

  /** A step can be undone: its result and either argument determine the other. */
  lemma MixInjective(v: Word, w: Word, b: Byte, c: Byte)
    ensures Mix(v, b) == Mix(w, b) <==> v == w
    ensures Mix(v, b) == Mix(v, c) <==> b == c
  {
    hide TimesPrime, Xor;
    TimesPrimeUndone(Xor(v, b));
    TimesPrimeUndone(Xor(w, b));
    TimesPrimeUndone(Xor(v, c));
    XorCancels(b, v, w);
    XorCancels(v, b, c);
  }

  /** _Fnv1a_append_bytes, byte by byte. */
  function Append(val: Word, bytes: seq<Byte>): Word {
    if bytes == [] then val else Mix(Append(val, bytes[..|bytes| - 1]), bytes[|bytes| - 1])
  }

  /** The values a hash goes through, byte by byte: each is the exclusive or of the one before
      and the byte, times the FNV prime modulo 2^64. */
  ghost predicate FnvSteps(states: seq<Word>, bytes: seq<Byte>) {
    && |states| == |bytes| + 1
    && forall i :: 0 <= i < |bytes| ==>
         states[i + 1] == (Xor(states[i], bytes[i]) * 1099511628211) % 0x1_0000_0000_0000_0000
  }

  ghost predicate IsFnv(val: Word, bytes: seq<Byte>, h: Word) {
    exists states :: FnvSteps(states, bytes) && states[0] == val && states[|bytes|] == h
  }

  lemma {:induction false} AppendIsFnv(val: Word, bytes: seq<Byte>)
    ensures IsFnv(val, bytes, Append(val, bytes))
  {
    hide Xor;
    if bytes == [] {
      assert FnvSteps([val], bytes);
    } else {
      var front := bytes[..|bytes| - 1];
      AppendIsFnv(val, front);
      var states :| FnvSteps(states, front) && states[0] == val && states[|front|] == Append(val, front);
      assert FnvSteps(states + [Append(val, bytes)], bytes);
    }
  }

  method AppendBytes(val: Word, bytes: array<Byte>) returns (h: Word)
    ensures h == Append(val, bytes[..])
    ensures IsFnv(val, bytes[..], h)
  {
    AppendIsFnv(val, bytes[..]);
    hide Mix, IsFnv;
    h := val;
    for idx := 0 to bytes.Length
      invariant h == Append(val, bytes[..idx])
    {
      assert bytes[..idx + 1][..idx] == bytes[..idx];
      h := Mix(h, bytes[idx]);
    }
    assert bytes[..bytes.Length] == bytes[..];
  }

  /** _Hash_representation. */
  function HashOf(e: Element): Word {
    Append(FNV_OFFSET_BASIS, e)
  }

  /** Changing one byte always changes the hash of an element. */
  lemma {:induction false} OneByte(val: Word, bytes: seq<Byte>, i: nat, b: Byte)
    requires i < |bytes|
    ensures Append(val, bytes[i := b]) == Append(val, bytes) <==> b == bytes[i]
  {
    hide Mix;
    var last := |bytes| - 1;
    var front := bytes[..last];
    if i == last {
      assert bytes[i := b][..last] == front;
      MixInjective(Append(val, front), Append(val, front), b, bytes[i]);
    } else {
      assert bytes[i := b][..last] == front[i := b];
      OneByte(val, front, i, b);
      MixInjective(Append(val, front[i := b]), Append(val, front), bytes[last], bytes[last]);
    }
  }

  // ----- updateHash -----

  /** Rotation to the right by one bit. */
  function Rotate(x: Word): (r: Word) {
    x / 2 + (x % 2) * (TWO_64 / 2)
  }

  lemma RotateInjective(x: Word, y: Word)
    ensures Rotate(x) == Rotate(y) <==> x == y
  {
    assert (2 * Rotate(x)) % TWO_64 + (2 * Rotate(x)) / TWO_64 == x;
  }

  /** The hash of a handler: the hash of its id, rotated and mixed with every element. */
  function Fold(start: Word, data: seq<Element>): Word {
    if data == [] then start
    else Xor(Rotate(Fold(start, data[..|data| - 1])), HashOf(data[|data| - 1]))
  }

  /** What a handler is hashed by: its id and its elements. A wrapper around a null pointer
      has no elements, but a number and a size of them. */
  datatype Handler =
    | NullWrapper(id: Element, nbElements: nat, elementSize: nat)
    | Handler(id: Element, data: seq<Element>)

  function HandlerHashOf(h: Handler): Word {
    match h
    case NullWrapper(_, _, _) => 0
    case Handler(id, data) => Fold(HashOf(id), data)
  }

  /** The values the hash of a handler goes through, element by element: the hash of the id, and
      then each time the value before, its lowest bit moved to the top, combined by exclusive
      or with the hash of the element. */
  ghost predicate HashSteps(states: seq<Word>, id: Element, data: seq<Element>) {
    && |states| == |data| + 1 && IsFnv(14695981039346656037, id, states[0])
    && forall i :: 0 <= i < |data| ==> HashStep(states[i], states[i + 1], data[i])
  }

  ghost predicate HashStep(before: Word, after: Word, e: Element) {
    exists moved: Word, h: Word ::
      && 2 * moved == before + (before % 2) * 0xFFFF_FFFF_FFFF_FFFF
      && IsFnv(14695981039346656037, e, h) && after == Xor(moved, h)
  }

  ghost predicate IsHashOf(h: Word, id: Element, data: seq<Element>) {
    exists states :: HashSteps(states, id, data) && states[|data|] == h
  }

  lemma {:induction false} FoldIsHash(id: Element, data: seq<Element>)
    ensures IsHashOf(Fold(HashOf(id), data), id, data)
  {
    hide Xor, IsFnv, Append;
    AppendIsFnv(FNV_OFFSET_BASIS, id);
    if data == [] {
      assert HashSteps([HashOf(id)], id, data);
    } else {
      var front, e := data[..|data| - 1], data[|data| - 1];
      FoldIsHash(id, front);
      AppendIsFnv(FNV_OFFSET_BASIS, e);
      var before, after := Fold(HashOf(id), front), Fold(HashOf(id), data);
      var states :| HashSteps(states, id, front) && states[|front|] == before;
      RotateIs(before);
      assert HashStep(before, after, e);
      assert HashSteps(states + [after], id, data);
    }
  }

  lemma RotateIs(x: Word)
    ensures 2 * Rotate(x) == x + (x % 2) * 0xFFFF_FFFF_FFFF_FFFF
  {
  }

  lemma {:induction false} OneElement(start: Word, data: seq<Element>, i: nat, e: Element)
    requires i < |data|
    ensures Fold(start, data[i := e]) == Fold(start, data) <==> HashOf(e) == HashOf(data[i])
  {
    hide Rotate, Xor, HashOf;
    var last := |data| - 1;
    var front := data[..last];
    if i == last {
      assert data[i := e][..last] == front;
      XorCancels(Rotate(Fold(start, front)), HashOf(e), HashOf(data[i]));
    } else {
      assert data[i := e][..last] == front[i := e];
      OneElement(start, front, i, e);
      RotateInjective(Fold(start, front[i := e]), Fold(start, front));
      XorCancels(HashOf(data[last]), Rotate(Fold(start, front[i := e])), Rotate(Fold(start, front)));
    }
  }

  function ChangeByte(e: Element, k: nat, b: Byte): (r: Element)
    requires k < |e|
  {
    e[k := b]
  }

  /** The handler with byte `k` of element `i` replaced. */
  function Changed(h: Handler, i: nat, k: nat, b: Byte): (r: Handler)
    requires h.Handler? && i < |h.data| && k < |h.data[i]|
  {
    h.(data := h.data[i := ChangeByte(h.data[i], k, b)])
  }

  /** Changing one byte of one element always changes the hash of the handler. */
  lemma OneByteChangesHandler(h: Handler, i: nat, k: nat, b: Byte)
    requires h.Handler? && i < |h.data| && k < |h.data[i]|
    ensures HandlerHashOf(Changed(h, i, k, b)) == HandlerHashOf(h) <==> b == h.data[i][k]
  {
    hide Fold, Append;
    OneElement(HashOf(h.id), h.data, i, ChangeByte(h.data[i], k, b));
    OneByte(FNV_OFFSET_BASIS, h.data[i], k, b);
  }

  // ----- Clones -----

  function ZeroElement(size: nat): (e: Element)
    ensures |e| == size && forall i :: 0 <= i < size ==> e[i] == 0
  {
    seq<Byte>(size, _ => 0)
  }

  function ZeroData(n: nat, size: nat): (data: seq<Element>)
    ensures |data| == n && forall i :: 0 <= i < n ==> data[i] == ZeroElement(size)
  {
    seq(n, _ => ZeroElement(size))
  }

  /** clone: the copy has the same id; where there is no data to copy it is zero-filled. */
  function CloneOf(h: Handler): (c: Handler)
    ensures c.Handler? && c.id == h.id
    ensures h.Handler? ==> c == h
  {
    match h
    case NullWrapper(id, n, size) => Handler(id, ZeroData(n, size))
    case Handler(_, _) => h
  }

  /** Rotation to the left by one bit. */
  function RotateBack(x: Word): (r: Word)
    ensures Rotate(r) == x
  {
    (2 * x) % TWO_64 + x / (TWO_64 / 2)
  }

  /** The value a fold over `n` elements of hash `z` must start from to end at `target`. */
  function StartFor(n: nat, z: Word, target: Word): (start: Word) {
    if n == 0 then target else StartFor(n - 1, z, RotateBack(Xor(target, z)))
  }

  lemma {:induction false} FoldEndsAt(start: Word, n: nat, size: nat, target: Word)
    ensures Fold(start, ZeroData(n, size)) == target <==> start == StartFor(n, HashOf(ZeroElement(size)), target)
  {
    hide Rotate, RotateBack, Xor, HashOf;
    if n > 0 {
      var z := HashOf(ZeroElement(size));
      var before := Fold(start, ZeroData(n - 1, size));
      assert ZeroData(n, size)[..n - 1] == ZeroData(n - 1, size);
      var previous := RotateBack(Xor(target, z));
      FoldEndsAt(start, n - 1, size, previous);
      RotateInjective(before, previous);
      XorTwice(target, z);
      XorCancels(z, Rotate(before), Xor(target, z));
    }
  }

  /** Cloning keeps the hash exactly for handlers with data, and for a wrapper around a null
      pointer whose id hashes to the one value from which the zero-filled data folds to zero. */
  lemma CloneKeepsHash(h: Handler)
    ensures HandlerHashOf(CloneOf(h)) == HandlerHashOf(h) <==>
      h.Handler? || HashOf(h.id) == StartFor(h.nbElements, HashOf(ZeroElement(h.elementSize)), 0)
  {
    hide Fold, HashOf, StartFor;
    if h.NullWrapper? {
      FoldEndsAt(HashOf(h.id), h.nbElements, h.elementSize, 0);
    }
  }

  lemma ZeroStep(val: Word, n: nat)
    ensures Append(val, ZeroElement(n + 1)) == TimesPrime(Append(val, ZeroElement(n)))
  {
    hide Xor, TimesPrime;
    assert ZeroElement(n + 1)[..n] == ZeroElement(n);
    XorLaws(Append(val, ZeroElement(n)), 0, 0);
  }

  lemma EightProducts()
    ensures TimesPrime(14695981039346656037) == 12638153115695167455
    ensures TimesPrime(12638153115695167455) == 590684067820433389
    ensures TimesPrime(590684067820433389) == 15658191375538532279
    ensures TimesPrime(15658191375538532279) == 5558979605539197941
    ensures TimesPrime(5558979605539197941) == 16482136530319305039
    ensures TimesPrime(16482136530319305039) == 15556837164214743357
    ensures TimesPrime(15556837164214743357) == 8614007388540201639
    ensures TimesPrime(8614007388540201639) == 12161962213042174405
  {
  }

  lemma EightZeros()
    ensures HashOf(ZeroElement(8)) == 12161962213042174405
  {
    assert Append(FNV_OFFSET_BASIS, ZeroElement(0)) == FNV_OFFSET_BASIS;
    hide TimesPrime, Append;
    EightProducts();
    ZeroStep(FNV_OFFSET_BASIS, 0);
    ZeroStep(FNV_OFFSET_BASIS, 1);
    ZeroStep(FNV_OFFSET_BASIS, 2);
    ZeroStep(FNV_OFFSET_BASIS, 3);
    ZeroStep(FNV_OFFSET_BASIS, 4);
    ZeroStep(FNV_OFFSET_BASIS, 5);
    ZeroStep(FNV_OFFSET_BASIS, 6);
    ZeroStep(FNV_OFFSET_BASIS, 7);
  }

  /** The first handler ever made has id 0. If it wraps a null pointer to one double, its
      clone hashes differently. */
  lemma FirstNullWrapperChanges()
    ensures var h := NullWrapper(ZeroElement(8), 1, 8);
      HandlerHashOf(CloneOf(h)) != HandlerHashOf(h)
  {
    hide Append, Xor, Rotate;
    EightZeros();
    var z := HashOf(ZeroElement(8));
    var data := ZeroData(1, 8);
    assert data[..0] == [];
    assert Fold(z, data) == Xor(Rotate(z), z);
    RotatedDiffers();
    XorTwice(z, z);
    XorCancels(z, Rotate(z), z);
  }

  lemma RotatedDiffers()
    ensures Rotate(12161962213042174405) != 12161962213042174405
  {
  }

  function Keys(handlers: seq<Handler>): (s: seq<Recordings.Hash>)
    ensures |s| == |handlers|
    ensures forall i :: 0 <= i < |s| ==> s[i] == HandlerHashOf(handlers[i])
  {
    seq(|handlers|, i requires 0 <= i < |handlers| => HandlerHashOf(handlers[i]))
  }

  /** Changing one byte of one element of one non-null handler always changes the key under
      which the archive stores the set of handlers. */
  lemma OneByteChangesKey(handlers: seq<Handler>, n: nat, i: nat, k: nat, b: Byte)
    requires n < |handlers| && handlers[n].Handler?
    requires i < |handlers[n].data| && k < |handlers[n].data[i]|
    ensures Recordings.Combined(Keys(handlers[n := Changed(handlers[n], i, k, b)]))
         == Recordings.Combined(Keys(handlers))
       <==> b == handlers[n].data[i][k]
  {
    hide HandlerHashOf, Recordings.Combined;
    var h := handlers[n];
    var changed := Changed(h, i, k, b);
    OneByteChangesHandler(h, i, k, b);
    Recordings.OneHandlerChangesKey(Keys(handlers), n, HandlerHashOf(changed));
    assert Keys(handlers[n := changed]) == Keys(handlers)[n := HandlerHashOf(changed)];
  }

  // ----- The cached hash of an array -----

  /** An array wrapper, or the primitive array derived from it, with its cached hash. */
  class HashedArray {
    const native: Native
    var content: Handler
    var cachedHash: Word
    var invalidCachedHash: bool

    constructor (native: Native, content: Handler)
      ensures this.native == native && this.content == content && Coherent()
    {
      this.native, this.content, cachedHash, invalidCachedHash := native, content, 0, true;
    }

    /** A hash that is not marked invalid is the hash of the content. */
    ghost predicate Coherent()
      reads this
    {
      !invalidCachedHash ==> cachedHash == HandlerHashOf(content)
    }

    /** updateHash: without data the hash is zero, and a cache marked invalid stays so. */
    method UpdateHash() returns (h: Word)
      modifies this`cachedHash, this`invalidCachedHash
      ensures h == cachedHash == HandlerHashOf(content)
      ensures invalidCachedHash == (content.NullWrapper? && old(invalidCachedHash))
      ensures if content.NullWrapper? then h == 0 else IsHashOf(h, content.id, content.data)
    {
      hide Rotate, Xor, HashOf, IsHashOf;
      if content.NullWrapper? {
        cachedHash := 0;
        return cachedHash;
      }
      var data := content.data;
      FoldIsHash(content.id, data);
      cachedHash := HashOf(content.id);
      for i := 0 to |data|
        invariant cachedHash == Fold(HashOf(content.id), data[..i])
        invariant invalidCachedHash == old(invalidCachedHash)
      {
        assert data[..i + 1][..i] == data[..i];
        cachedHash := Rotate(cachedHash);
        cachedHash := Xor(cachedHash, HashOf(data[i]));
      }
      assert data[..|data|] == data;
      invalidCachedHash := false;
      return cachedHash;
    }

    /** getHash: right whenever the cache is coherent. */
    method GetHash() returns (h: Word)
      modifies this`cachedHash, this`invalidCachedHash
      ensures old(Coherent()) ==> Coherent() && h == HandlerHashOf(content)
      ensures !old(invalidCachedHash) ==> h == old(cachedHash)
    {
      if invalidCachedHash {
        var updated := UpdateHash();
      }
      return cachedHash;
    }

    /** setDataAt: the requested type and address are checked, then one element is replaced. */
    method SetDataAt(t: Type, address: nat, value: Element) returns (r: Result<()>)
      requires Coherent() && content.Handler?
      modifies this`content, this`invalidCachedHash
      ensures Coherent() && content.Handler?
      ensures var space := Addressing.AddressSpace(native, |old(content).data|, t);
        && (r == Err(InvalidArgument) <==> space == 0)
        && (r == Err(OutOfRange) <==> space != 0 && (address >= space || address >= |old(content).data|))
        && (r == Ok(()) <==> address < space && address < |old(content).data|)
      ensures content
        == if r.Ok? then old(content).(data := old(content).data[address := value]) else old(content)
    {
      hide HandlerHashOf;
      var space := Addressing.AddressSpace(native, |content.data|, t);
      if space == 0 {
        return Err(InvalidArgument);
      }
      if address >= space || address >= |content.data| {
        return Err(OutOfRange);
      }
      content := content.(data := content.data[address := value]);
      invalidCachedHash := true;
      return Ok(());
    }

    /** Assignment copies the data and leaves the cache alone: afterwards the cache is
        coherent exactly if it was invalid before or the new data has the old hash. */
    method Assign(other: HashedArray) returns (ok: bool)
      requires Coherent() && content.Handler? && other.content.Handler?
      modifies this`content
      ensures ok == (|old(content).data| == |old(other.content).data|)
      ensures content == if ok then Handler(old(content).id, old(other.content).data) else old(content)
      ensures Coherent() <==> invalidCachedHash || HandlerHashOf(content) == HandlerHashOf(old(content))
    {
      hide HandlerHashOf;
      if other != this {
        if |content.data| != |other.content.data| {
          return false;
        }
        for i := 0 to |content.data|
          invariant content.Handler? && content.id == old(content).id && other.content == old(other.content)
          invariant |content.data| == |other.content.data| && content.data[..i] == other.content.data[..i]
        {
          content := content.(data := content.data[i := other.content.data[i]]);
        }
      }
      return true;
    }
  }
}
