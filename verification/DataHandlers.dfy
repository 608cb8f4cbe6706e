/** The types an instruction can ask for, and the one-dimensional addressing of arrays. */
module DataTypes {
  datatype Native = Double | Constant | OtherNative(id: nat)

  /** A requested type: one element, a C array of elements, or a C matrix of elements. */
  datatype Type =
    | Scalar(native: Native)
    | Array(native: Native, size: nat)
    | Matrix(native: Native, height: nat, width: nat)

  datatype Error = NullPointer | InvalidArgument | OutOfRange

  datatype Result<T> = Ok(value: T) | Err(error: Error)

  /** Consecutive cells. */
  function Row(start: nat, n: nat): (s: seq<nat>)
    ensures |s| == n && forall i :: 0 <= i < n ==> s[i] == start + i
  {
    seq(n, i requires 0 <= i < n => start + i)
  }

  function Select<T>(data: seq<T>, cells: seq<nat>): (s: seq<T>)
    requires forall i :: 0 <= i < |cells| ==> cells[i] < |data|
    ensures |s| == |cells| && forall i :: 0 <= i < |s| ==> s[i] == data[cells[i]]
  {
    seq(|cells|, i requires 0 <= i < |cells| => data[cells[i]])
  }
}

module ArrayWrappers {
  import opened DataTypes

  /** The length of the window a type reads, if the array can provide the type at all. */
  predicate Provides(native: Native, nbElements: nat, t: Type) {
    t.native == native && (t.Scalar? || (t.Array? && t.size <= nbElements))
  }

  function WindowSize(t: Type): nat
    requires !t.Matrix?
  {
    if t.Scalar? then 1 else t.size
  }

  function AddressSpace(native: Native, nbElements: nat, t: Type): (n: nat)
  {
    if t == Scalar(native) then nbElements
    else if t.Array? && t.native == native && t.size <= nbElements then nbElements - t.size + 1
    else 0
  }

  /** The addresses read at a valid address: consecutive ones from the address on. */
  function Accessed(native: Native, nbElements: nat, t: Type, address: nat): (s: seq<nat>)
  {
    if address >= AddressSpace(native, nbElements, t) then []
    else Row(address, WindowSize(t))
  }

  /** An address is valid exactly when the window from it on fits in the array. */
  lemma AddressSpaceIsFit(native: Native, nbElements: nat, t: Type, address: nat)
    ensures address < AddressSpace(native, nbElements, t)
       <==> Provides(native, nbElements, t) && address + WindowSize(t) <= nbElements
  {
  }

  /** What a type reads at an address: the element itself, or the elements from it on for an
      array that still fits; nothing otherwise. */
  ghost predicate ReadsWindow(s: seq<nat>, native: Native, nbElements: nat, t: Type, address: nat) {
    match t
    case Scalar(other) => s == if other == native && address < nbElements then [address] else []
    case Array(other, size) =>
      if other == native && address + size <= nbElements
      then |s| == size && forall i :: 0 <= i < size ==> s[i] == address + i
      else s == []
    case Matrix(_, _, _) => s == []
  }

  lemma AccessedReads(native: Native, nbElements: nat, t: Type, address: nat)
    ensures ReadsWindow(Accessed(native, nbElements, t, address), native, nbElements, t, address)
  {
  }

  class ArrayWrapper<T(0)> {
    const native: Native
    const nbElements: nat
    var containerPtr: array?<T>
    var cachedAddressSpace: map<Type, nat>
    var invalidCachedHash: bool

    /** The cache never disagrees with a fresh computation. */
    ghost predicate Valid()
      reads this
    {
      && (containerPtr != null ==> containerPtr.Length == nbElements)
      && (forall t :: t in cachedAddressSpace ==>
            cachedAddressSpace[t] == AddressSpace(native, nbElements, t))
    }

    constructor (native: Native, nbElements: nat)
      ensures Valid() && this.native == native && this.nbElements == nbElements && containerPtr == null
    {
      this.native, this.nbElements := native, nbElements;
      containerPtr, cachedAddressSpace, invalidCachedHash := null, map[], true;
    }

    /** setPointer: a vector of another size is refused; any other pointer, null included, makes
        the cached hash invalid. */
    method SetPointer(ptr: array?<T>) returns (ok: bool)
      requires Valid()
      modifies this`containerPtr, this`invalidCachedHash
      ensures Valid()
      ensures ok <==> ptr == null || ptr.Length == nbElements
      ensures containerPtr == if ok then ptr else old(containerPtr)
      ensures invalidCachedHash == (ok || old(invalidCachedHash))
    {
      if ptr == null {
        containerPtr, invalidCachedHash := ptr, true;
        return true;
      }
      if ptr.Length != nbElements {
        return false;
      }
      containerPtr, invalidCachedHash := ptr, true;
      return true;
    }

    method GetAddressSpace(t: Type) returns (space: nat)
      requires Valid()
      modifies this`cachedAddressSpace
      ensures Valid() && space == AddressSpace(native, nbElements, t)
    {
      if t in cachedAddressSpace {
        return cachedAddressSpace[t];
      }
      if t == Scalar(native) {
        cachedAddressSpace := cachedAddressSpace[t := nbElements];
        return nbElements;
      }
      if t.Array? && t.native == native && t.size <= nbElements {
        space := nbElements - t.size + 1;
        cachedAddressSpace := cachedAddressSpace[t := space];
        return space;
      }
      return 0;
    }

    method GetAddressesAccessed(t: Type, address: nat) returns (addresses: seq<nat>)
      requires Valid()
      modifies this`cachedAddressSpace
      ensures Valid() && addresses == Accessed(native, nbElements, t, address)
      ensures address < AddressSpace(native, nbElements, t) ==>
        forall i :: 0 <= i < |addresses| ==> addresses[i] == address + i < nbElements
      ensures ReadsWindow(addresses, native, nbElements, t, address)
    {
      AccessedReads(native, nbElements, t, address);
      addresses := [];
      var space := GetAddressSpace(t);
      if space > address {
        if t == Scalar(native) {
          addresses := [address];
        } else {
          var i := 0;
          while i < nbElements - space + 1
            invariant 0 <= i <= nbElements - space + 1 && addresses == Row(address, i)
          {
            addresses := addresses + [address + i];
            i := i + 1;
          }
        }
      }
    }

    /** getDataAt, with the argument checks of checkAddressAndType. */
    method GetDataAt(t: Type, address: nat) returns (r: Result<seq<T>>)
      requires Valid()
      modifies this`cachedAddressSpace
      ensures Valid()
      ensures containerPtr == null ==> r == Err(NullPointer)
      ensures containerPtr != null && AddressSpace(native, nbElements, t) == 0 ==> r == Err(InvalidArgument)
      ensures containerPtr != null && 0 < AddressSpace(native, nbElements, t) <= address ==> r == Err(OutOfRange)
      ensures containerPtr != null && address < AddressSpace(native, nbElements, t) ==>
        && (forall i :: 0 <= i < |Accessed(native, nbElements, t, address)| ==>
              Accessed(native, nbElements, t, address)[i] < nbElements)
        && r == Ok(Select(containerPtr[..], Accessed(native, nbElements, t, address)))
      ensures ReadsWindow(Accessed(native, nbElements, t, address), native, nbElements, t, address)
    {
      AccessedReads(native, nbElements, t, address);
      if containerPtr == null {
        return Err(NullPointer);
      }
      var space := GetAddressSpace(t);
      if space == 0 {
        return Err(InvalidArgument);
      }
      if address >= space {
        return Err(OutOfRange);
      }
      if t == Scalar(native) {
        assert [containerPtr[address]] == Select(containerPtr[..], Accessed(native, nbElements, t, address));
        return Ok([containerPtr[address]]);
      }
      var arraySize := nbElements - space + 1;
      var copy := new T[arraySize];
      for idx := 0 to arraySize
        modifies copy
        invariant forall i :: 0 <= i < idx ==> copy[i] == containerPtr[address + i]
      {
        copy[idx] := containerPtr[address + idx];
      }
      assert copy[..] == Select(containerPtr[..], Accessed(native, nbElements, t, address));
      return Ok(copy[..]);
    }
  }
}
