/** Two-dimensional addressing: the windows of a matrix type inside a grid. */
module Windows {
  import opened DataTypes
  import opened Products

  datatype Shape = Shape(height: nat, width: nat)

  /** The window a type asks for: one-dimensional types are windows of height one. */
  function ShapeOf(t: Type): Shape {
    match t
    case Scalar(_) => Shape(1, 1)
    case Array(_, size) => Shape(1, size)
    case Matrix(_, height, width) => Shape(height, width)
  }

  /** Top-left corners at which the window lies inside the grid. */
  predicate FitsAt(grid: Shape, window: Shape, top: nat, left: nat) {
    top + window.height <= grid.height && left + window.width <= grid.width
  }

  predicate Fits(grid: Shape, window: Shape) {
    window.height <= grid.height && window.width <= grid.width
  }

  function Columns(grid: Shape, window: Shape): (n: nat)
    requires Fits(grid, window)
    ensures n > 0
  {
    grid.width - window.width + 1
  }

  function AddressSpace(native: Native, grid: Shape, t: Type): (n: nat)
  {
    if t == Scalar(native) then Times(grid.height, grid.width)
    else if !t.Scalar? && t.native == native && Fits(grid, ShapeOf(t)) then
      Times(grid.height - ShapeOf(t).height + 1, Columns(grid, ShapeOf(t)))
    else 0
  }

  function TopOf(grid: Shape, window: Shape, address: nat): (top: nat)
    requires Fits(grid, window)
  {
    address / Columns(grid, window)
  }

  function LeftOf(grid: Shape, window: Shape, address: nat): (left: nat)
    requires Fits(grid, window)
    ensures left + window.width <= grid.width
  {
    address % Columns(grid, window)
  }

  function AddressOf(grid: Shape, window: Shape, top: nat, left: nat): (address: nat)
    requires Fits(grid, window)
  {
    Times(top, Columns(grid, window)) + left
  }

  /** The valid addresses of a window type are in one-to-one correspondence with the
      top-left corners at which the window fits: AddressOf and (TopOf, LeftOf) undo each
      other, and carry validity to fitting and back. */
  lemma AddressesAreCorners(native: Native, grid: Shape, t: Type, address: nat, top: nat, left: nat)
    requires t != Scalar(native) && !t.Scalar? && t.native == native && Fits(grid, ShapeOf(t))
    ensures AddressOf(grid, ShapeOf(t), TopOf(grid, ShapeOf(t), address), LeftOf(grid, ShapeOf(t), address)) == address
    ensures address < AddressSpace(native, grid, t)
       <==> FitsAt(grid, ShapeOf(t), TopOf(grid, ShapeOf(t), address), LeftOf(grid, ShapeOf(t), address))
    ensures FitsAt(grid, ShapeOf(t), top, left) ==>
      && TopOf(grid, ShapeOf(t), AddressOf(grid, ShapeOf(t), top, left)) == top
      && LeftOf(grid, ShapeOf(t), AddressOf(grid, ShapeOf(t), top, left)) == left
      && AddressOf(grid, ShapeOf(t), top, left) < AddressSpace(native, grid, t)
  {
    hide Times;
    var window := ShapeOf(t);
    var n := Columns(grid, window);
    var rows := grid.height - window.height + 1;
    DivideBack(address, n);
    if address / n < rows {
      TimesGrows(address / n + 1, rows, n);
      TimesGrows(address / n, rows, n);
    } else {
      TimesGrows(rows, address / n, n);
    }
    if FitsAt(grid, window, top, left) {
      UniqueDivision(top, left, n);
      TimesGrows(top + 1, rows, n);
      TimesGrows(top, rows, n);
    }
  }

  // ----- The cells of a window -----

  /** The cells of the first `height` rows of a window, row by row. */
  function Cells(gridWidth: nat, start: nat, height: nat, width: nat): (s: seq<nat>)
  {
    if height == 0 then []
    else Cells(gridWidth, start, height - 1, width) + Row(start + Times(height - 1, gridWidth), width)
  }

  predicate Increasing(s: seq<nat>) {
    forall i, j :: 0 <= i < j < |s| ==> s[i] < s[j]
  }

  /** Row and column of a cell are inside the window. */
  predicate InWindow(grid: Shape, window: Shape, top: nat, left: nat, cell: nat)
    requires grid.width > 0
  {
    top <= cell / grid.width < top + window.height && left <= cell % grid.width < left + window.width
  }

  lemma RowOfGrid(grid: Shape, row: nat, left: nat, width: nat, cell: nat)
    requires left + width <= grid.width && grid.width > 0
    ensures cell in Row(Times(row, grid.width) + left, width)
       <==> cell / grid.width == row && left <= cell % grid.width < left + width
  {
    hide Times;
    var start := Times(row, grid.width) + left;
    var r := Row(start, width);
    if cell in r {
      var i :| 0 <= i < |r| && r[i] == cell;
      UniqueDivision(row, left + i, grid.width);
    }
    if cell / grid.width == row && left <= cell % grid.width < left + width {
      DivideBack(cell, grid.width);
      assert r[cell - start] == cell;
    }
  }

  /** The cells listed are exactly the cells of the window, each once, row by row from
      left to right; every row of the window lies in one row of the grid. */
  lemma {:induction false} CellsAreWindow(grid: Shape, window: Shape, top: nat, left: nat)
    requires FitsAt(grid, window, top, left) && grid.width > 0
    ensures var s := Cells(grid.width, Times(top, grid.width) + left, window.height, window.width);
      && |s| == Times(window.height, window.width)
      && Increasing(s)
      && (forall c :: c in s <==> InWindow(grid, window, top, left, c))
    decreases window.height
  {
    hide Times;
    var start := Times(top, grid.width) + left;
    var s := Cells(grid.width, start, window.height, window.width);
    if window.height == 0 {
      TimesZero(window.width);
    } else {
      var shorter := window.(height := window.height - 1);
      CellsAreWindow(grid, shorter, top, left);
      TimesGrows(shorter.height, shorter.height, window.width);
      TimesSum(top, shorter.height, grid.width);
      var front := Cells(grid.width, start, shorter.height, window.width);
      var last := Row(Times(top + shorter.height, grid.width) + left, window.width);
      assert s == front + last;
      forall c: nat
        ensures c in last <==> c / grid.width == top + shorter.height && left <= c % grid.width < left + window.width
      {
        RowOfGrid(grid, top + shorter.height, left, window.width, c);
      }
      forall i, j | 0 <= i < j < |s|
        ensures s[i] < s[j]
      {
        if i < |front| <= j {
          assert s[i] in front && s[j] in last;
          EarlierRow(s[i], s[j], grid.width);
        } else if j < |front| {
          assert front[i] < front[j];
        }
      }
    }
  }

  lemma EarlierRow(a: nat, b: nat, n: nat)
    requires n > 0 && a / n < b / n
    ensures a < b
  {
    hide Times;
    DivideBack(a, n);
    DivideBack(b, n);
    TimesGrows(a / n + 1, b / n, n);
    TimesGrows(a / n, b / n, n);
  }

  lemma InBounds(grid: Shape, window: Shape, top: nat, left: nat, cell: nat)
    requires grid.width > 0 && FitsAt(grid, window, top, left) && InWindow(grid, window, top, left, cell)
    ensures cell < Times(grid.height, grid.width)
  {
    hide Times;
    DivideBack(cell, grid.width);
    TimesGrows(cell / grid.width + 1, grid.height, grid.width);
    TimesGrows(cell / grid.width, grid.height, grid.width);
  }

  /** The cells read at an address, in the order they are delivered. */
  function Accessed(native: Native, grid: Shape, t: Type, address: nat): (s: seq<nat>)
  {
    if address >= AddressSpace(native, grid, t) then []
    else if t.Scalar? then [address]
    else
      var window := ShapeOf(t);
      Cells(grid.width, Times(TopOf(grid, window, address), grid.width) + LeftOf(grid, window, address),
            window.height, window.width)
  }

  /** What is read at an address is in bounds, and for a window type it is exactly the
      window whose corner the address stands for. */
  lemma AccessedIsWindow(native: Native, grid: Shape, t: Type, address: nat)
    ensures forall i :: 0 <= i < |Accessed(native, grid, t, address)| ==>
      Accessed(native, grid, t, address)[i] < Times(grid.height, grid.width)
    ensures address < AddressSpace(native, grid, t) && !t.Scalar? && grid.width > 0 ==>
      && Increasing(Accessed(native, grid, t, address))
      && |Accessed(native, grid, t, address)| == Times(ShapeOf(t).height, ShapeOf(t).width)
      && (forall c :: c in Accessed(native, grid, t, address) <==>
            InWindow(grid, ShapeOf(t), TopOf(grid, ShapeOf(t), address), LeftOf(grid, ShapeOf(t), address), c))
  {
    hide Times;
    if address < AddressSpace(native, grid, t) && !t.Scalar? {
      var window := ShapeOf(t);
      var top, left := TopOf(grid, window, address), LeftOf(grid, window, address);
      var s := Accessed(native, grid, t, address);
      AddressesAreCorners(native, grid, t, address, 0, 0);
      if grid.width == 0 {
        NoCells(grid.width, Times(top, grid.width) + left, window.height);
      } else {
        CellsAreWindow(grid, window, top, left);
        forall i | 0 <= i < |s|
          ensures s[i] < Times(grid.height, grid.width)
        {
          assert s[i] in s;
          InBounds(grid, window, top, left, s[i]);
        }
      }
    }
  }

  /** The order of the cells: the one of row `k` and column `c` stands at k * width + c. */
  lemma {:induction false} CellAt(gridWidth: nat, start: nat, height: nat, width: nat, k: nat, c: nat)
    requires k < height && c < width
    ensures |Cells(gridWidth, start, height, width)| == Times(height, width)
    ensures Times(k, width) + c < Times(height, width)
    ensures Cells(gridWidth, start, height, width)[Times(k, width) + c] == start + Times(k, gridWidth) + c
    decreases height
  {
    hide Times;
    CellCount(gridWidth, start, height, width);
    CellCount(gridWidth, start, height - 1, width);
    TimesGrows(k + 1, height, width);
    TimesGrows(k, height, width);
    if k < height - 1 {
      CellAt(gridWidth, start, height - 1, width, k, c);
    }
  }

  // ----- What an address reads, cell by cell -----

  /** Row and column of the window behind an address start at the quotient and the remainder
      of the address by the number of window positions in a grid row. */
  function SourceCell(gridWidth: nat, width: nat, address: nat, row: nat, column: nat): (cell: nat)
    requires width <= gridWidth
  {
    (address / (gridWidth - width + 1) + row) * gridWidth + address % (gridWidth - width + 1) + column
  }

  ghost predicate CellAtIs(s: seq<nat>, gridWidth: nat, width: nat, address: nat, row: nat, column: nat)
    requires width <= gridWidth
  {
    && row * width + column < |s|
    && s[row * width + column] == SourceCell(gridWidth, width, address, row, column)
  }

  /** The cells of a type at an address: the address itself for an element; for an array or a
      matrix, row by row and column by column from the corner. */
  ghost predicate ReadsCells(s: seq<nat>, native: Native, grid: Shape, t: Type, address: nat) {
    match t
    case Scalar(other) => s == if other == native && address < grid.height * grid.width then [address] else []
    case Array(other, size) =>
      if other == native && 1 <= grid.height && size <= grid.width && address < grid.height * (grid.width - size + 1)
      then |s| == size && forall c :: 0 <= c < size ==> CellAtIs(s, grid.width, size, address, 0, c)
      else s == []
    case Matrix(other, height, width) =>
      if && other == native && height <= grid.height && width <= grid.width
         && address < (grid.height - height + 1) * (grid.width - width + 1)
      then && |s| == height * width
           && forall k, c :: 0 <= k < height && 0 <= c < width ==> CellAtIs(s, grid.width, width, address, k, c)
      else s == []
  }

  lemma CellsAt(gridWidth: nat, height: nat, width: nat, address: nat, k: nat, c: nat)
    requires k < height && c < width <= gridWidth
    ensures var start := Times(address / (gridWidth - width + 1), gridWidth) + address % (gridWidth - width + 1);
      CellAtIs(Cells(gridWidth, start, height, width), gridWidth, width, address, k, c)
  {
    var top := address / (gridWidth - width + 1);
    CellAt(gridWidth, Times(top, gridWidth) + address % (gridWidth - width + 1), height, width, k, c);
    TimesSum(top, k, gridWidth);
  }

  /** What Accessed lists is exactly that. */
  lemma AccessedReads(native: Native, grid: Shape, t: Type, address: nat)
    ensures ReadsCells(Accessed(native, grid, t, address), native, grid, t, address)
  {
    hide CellAtIs, Cells;
    if !t.Scalar? && address < AddressSpace(native, grid, t) {
      var window := ShapeOf(t);
      var top, left := TopOf(grid, window, address), LeftOf(grid, window, address);
      CellCount(grid.width, Times(top, grid.width) + left, window.height, window.width);
      forall k, c | 0 <= k < window.height && 0 <= c < window.width
        ensures CellAtIs(Accessed(native, grid, t, address), grid.width, window.width, address, k, c)
      {
        CellsAt(grid.width, window.height, window.width, address, k, c);
      }
    }
  }

  lemma {:induction false} CellCount(gridWidth: nat, start: nat, height: nat, width: nat)
    ensures |Cells(gridWidth, start, height, width)| == Times(height, width)
  {
    hide Times;
    TimesZero(width);
    if height > 0 {
      CellCount(gridWidth, start, height - 1, width);
      TimesGrows(height - 1, height - 1, width);
    }
  }

  lemma {:induction false} NoCells(gridWidth: nat, start: nat, height: nat)
    ensures Cells(gridWidth, start, height, 0) == []
  {
    if height > 0 {
      NoCells(gridWidth, start, height - 1);
    }
  }

  datatype Cached = Cached(space: nat, window: Shape)

  class Array2DWrapper<T(0)> {
    const native: Native
    const grid: Shape
    var containerPtr: array?<T>
    var cachedAddressSpace: map<Type, Cached>

    /** A cached answer is the fresh one; element types are cached without dimensions. */
    ghost predicate Valid()
      reads this
    {
      && (containerPtr != null ==> containerPtr.Length == Times(grid.height, grid.width))
      && (forall t :: t in cachedAddressSpace ==>
            && cachedAddressSpace[t].space == AddressSpace(native, grid, t)
            && (!t.Scalar? ==> t.native == native && Fits(grid, ShapeOf(t))
                               && cachedAddressSpace[t].window == ShapeOf(t)))
    }

    constructor (native: Native, width: nat, height: nat, ptr: array?<T>)
      requires ptr != null ==> ptr.Length == Times(height, width)
      ensures Valid() && this.native == native && grid == Shape(height, width) && containerPtr == ptr
    {
      this.native, this.grid := native, Shape(height, width);
      containerPtr, cachedAddressSpace := ptr, map[];
    }

    /** getAddressSpace with its memo table; the dimensions come along for array types. */
    method GetAddressSpace(t: Type) returns (space: nat, window: Shape)
      requires Valid()
      modifies this`cachedAddressSpace
      ensures Valid() && space == AddressSpace(native, grid, t)
      ensures t == Scalar(native) ==> space == grid.height * grid.width
      ensures space > 0 && !t.Scalar? ==> window == ShapeOf(t) && t.native == native && Fits(grid, window)
    {
      assert Times(grid.height, grid.width) == grid.height * grid.width;
      hide Times;
      if t in cachedAddressSpace {
        return cachedAddressSpace[t].space, cachedAddressSpace[t].window;
      }
      space, window := 0, Shape(0, 0);
      if t == Scalar(native) {
        space := Times(grid.height, grid.width);
        cachedAddressSpace := cachedAddressSpace[t := Cached(space, Shape(0, 0))];
      }
      if space == 0 && !t.Scalar? && t.native == native {
        var typeH, typeW := ShapeOf(t).height, ShapeOf(t).width;
        if typeH <= grid.height && typeW <= grid.width {
          space := Times(grid.height - typeH + 1, grid.width - typeW + 1);
          window := Shape(typeH, typeW);
          cachedAddressSpace := cachedAddressSpace[t := Cached(space, window)];
        }
      }
    }

    method GetAddressesAccessed(t: Type, address: nat) returns (addresses: seq<nat>)
      requires Valid()
      modifies this`cachedAddressSpace
      ensures Valid() && addresses == Accessed(native, grid, t, address)
      ensures ReadsCells(addresses, native, grid, t, address)
    {
      AccessedReads(native, grid, t, address);
      hide Times, ReadsCells;
      addresses := [];
      var space, window := GetAddressSpace(t);
      if space > address {
        if t == Scalar(native) {
          addresses := [address];
        } else {
          var addressH := address / (grid.width - window.width + 1);
          var addressW := address % (grid.width - window.width + 1);
          var addressSrc := Times(addressH, grid.width) + addressW;
          for idxHeight := 0 to window.height
            invariant addresses == Cells(grid.width, addressSrc, idxHeight, window.width)
          {
            ghost var before := addresses;
            var rowStart := Times(idxHeight, grid.width);
            for idxWidth := 0 to window.width
              invariant addresses == before + Row(addressSrc + rowStart, idxWidth)
            {
              var idxSrc := rowStart + idxWidth;
              addresses := addresses + [addressSrc + idxSrc];
            }
          }
        }
      }
    }

    /** getDataAt, with the argument checks of checkAddressAndType; the pointer is followed
        without a check once they pass. */
    method GetDataAt(t: Type, address: nat) returns (r: Result<seq<T>>)
      requires Valid() && (address < AddressSpace(native, grid, t) ==> containerPtr != null)
      modifies this`cachedAddressSpace
      ensures Valid()
      ensures AddressSpace(native, grid, t) == 0 ==> r == Err(InvalidArgument)
      ensures 0 < AddressSpace(native, grid, t) <= address ==> r == Err(OutOfRange)
      ensures address < AddressSpace(native, grid, t) ==>
        && (forall i :: 0 <= i < |Accessed(native, grid, t, address)| ==>
              Accessed(native, grid, t, address)[i] < containerPtr.Length)
        && r == Ok(Select(containerPtr[..], Accessed(native, grid, t, address)))
      ensures ReadsCells(Accessed(native, grid, t, address), native, grid, t, address)
      ensures t == Scalar(native) && address < grid.height * grid.width ==> r == Ok([containerPtr[address]])
    {
      assert Times(grid.height, grid.width) == grid.height * grid.width;
      AccessedReads(native, grid, t, address);
      hide Times, ReadsCells;
      var space, window := GetAddressSpace(t);
      if space == 0 {
        return Err(InvalidArgument);
      }
      if address >= space {
        return Err(OutOfRange);
      }
      AccessedIsWindow(native, grid, t, address);
      if t == Scalar(native) {
        assert [containerPtr[address]] == Select(containerPtr[..], [address]);
        return Ok([containerPtr[address]]);
      }
      var copy := CopyWindow(t, address, window);
      return Ok(copy);
    }

    /** The copying loops of getDataAt. */
    method CopyWindow(t: Type, address: nat, window: Shape) returns (copy: seq<T>)
      requires Valid() && containerPtr != null
      requires address < AddressSpace(native, grid, t) && !t.Scalar? && window == ShapeOf(t)
      requires forall i :: 0 <= i < |Accessed(native, grid, t, address)| ==>
        Accessed(native, grid, t, address)[i] < containerPtr.Length
      ensures copy == Select(containerPtr[..], Accessed(native, grid, t, address))
    {
      hide Times;
      var buffer := new T[Times(window.height, window.width)];
      var addressH := address / (grid.width - window.width + 1);
      var addressW := address % (grid.width - window.width + 1);
      var addressSrc := Times(addressH, grid.width) + addressW;
      var idxDst := 0;
      ghost var cells := Accessed(native, grid, t, address);
      CellCount(grid.width, addressSrc, window.height, window.width);
      TimesZero(window.width);
      for idxHeight := 0 to window.height
        modifies buffer
        invariant idxDst == Times(idxHeight, window.width)
        invariant forall i :: 0 <= i < idxDst && i < |cells| ==> buffer[i] == containerPtr[cells[i]]
      {
        var rowStart := Times(idxHeight, grid.width);
        for idxWidth := 0 to window.width
          modifies buffer
          invariant idxDst == Times(idxHeight, window.width) + idxWidth
          invariant forall i :: 0 <= i < idxDst && i < |cells| ==> buffer[i] == containerPtr[cells[i]]
        {
          CellAt(grid.width, addressSrc, window.height, window.width, idxHeight, idxWidth);
          var idxSrc := rowStart + idxWidth;
          buffer[idxDst] := containerPtr[addressSrc + idxSrc];
          idxDst := idxDst + 1;
        }
        TimesGrows(idxHeight, idxHeight, window.width);
      }
      copy := buffer[..];
      assert copy == Select(containerPtr[..], cells);
    }
  }
}
