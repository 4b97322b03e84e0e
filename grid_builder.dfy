/**
 * The grid builder: turns an image's tightly packed byte buffer into a grid of doubles,
 * one cell per pixel, filled in row-major order.
 *
 * With an alpha channel each pixel is four bytes (alpha, blue, green, red) and the cell
 * holds the packed ARGB `int` itself.  Without one each pixel is three bytes (blue, green,
 * red); they are packed under an opaque alpha, unpacked again, and the cell holds
 * 0.333 * (red + green + blue).  Doubles are modelled as exact reals.
 */
module GridBuilder {
  import opened JavaInts

  /** Bytes per pixel in the buffer. */
  function PixelLength(hasAlpha: bool): (n: nat)
    ensures n == 3 || n == 4
    ensures hasAlpha <==> n == 4
  {
    if hasAlpha then 4 else 3
  }

  /** The ARGB value the alpha-path formula denotes, before it is forced into an `int`. */
  function ArgbValue(a: int, r: int, g: int, b: int): int {
    a * TwoTo24 + r * TwoTo16 + g * TwoTo8 + b
  }

  /** The packing of one four-byte group, as the alpha path performs it: four `+=` onto 0. */
  function ArgbWithAlpha(alpha: Int8, blue: Int8, green: Int8, red: Int8): (argb: int)
    ensures IsInt32(argb)
    ensures argb == ArgbValue(UnsignedByte(alpha), UnsignedByte(red), UnsignedByte(green), UnsignedByte(blue))
                    - (if UnsignedByte(alpha) >= 128 then TwoTo32 else 0)
  {
    var argb0 := 0;
    var argb1 := Wrap32(argb0 + ShiftLeft(UnsignedByte(alpha), 24));
    var argb2 := Wrap32(argb1 + UnsignedByte(blue));
    var argb3 := Wrap32(argb2 + ShiftLeft(UnsignedByte(green), 8));
    Wrap32(argb3 + ShiftLeft(UnsignedByte(red), 16))
  }

  /** The packing of one three-byte group, as the no-alpha path performs it: the constant
      -16777216 (alpha 0xFF) and three `+=` onto 0. */
  function OpaqueArgb(blue: Int8, green: Int8, red: Int8): (argb: int)
    ensures IsInt32(argb)
    ensures argb == ArgbValue(0xFF, UnsignedByte(red), UnsignedByte(green), UnsignedByte(blue)) - TwoTo32
    ensures -TwoTo24 <= argb < 0
  {
    var argb0 := 0;
    var argb1 := Wrap32(argb0 + -16777216);
    var argb2 := Wrap32(argb1 + UnsignedByte(blue));
    var argb3 := Wrap32(argb2 + ShiftLeft(UnsignedByte(green), 8));
    Wrap32(argb3 + ShiftLeft(UnsignedByte(red), 16))
  }

  function RedOf(argb: int): (red: int)
    requires IsInt32(argb)
    ensures 0 <= red < TwoTo8
  {
    LowByte(ShiftRight(argb, 16))
  }

  function GreenOf(argb: int): (green: int)
    requires IsInt32(argb)
    ensures 0 <= green < TwoTo8
  {
    LowByte(ShiftRight(argb, 8))
  }

  function BlueOf(argb: int): (blue: int)
    ensures 0 <= blue < TwoTo8
  {
    LowByte(argb)
  }

  /** Unpacking an opaque packed pixel gives back the three bytes it was packed from. */
  lemma UnpackOpaqueArgb(blue: Int8, green: Int8, red: Int8)
    ensures RedOf(OpaqueArgb(blue, green, red)) == UnsignedByte(red)
    ensures GreenOf(OpaqueArgb(blue, green, red)) == UnsignedByte(green)
    ensures BlueOf(OpaqueArgb(blue, green, red)) == UnsignedByte(blue)
  {
    var r, g, b := UnsignedByte(red), UnsignedByte(green), UnsignedByte(blue);
    var argb := OpaqueArgb(blue, green, red);
    assert argb == (-256 + r) * TwoTo16 + g * TwoTo8 + b;
    assert ShiftRight(argb, 16) == -256 + r;
    assert ShiftRight(argb, 8) == (-256 + r) * TwoTo8 + g;
  }

  /** The crude grey level of a packed pixel: 0.333 of each of red, green and blue. */
  function Intensity(argb: int): (intensity: real)
    requires IsInt32(argb)
    ensures 0.0 <= intensity <= 254.745
  {
    var red := RedOf(argb);
    var green := GreenOf(argb);
    var blue := BlueOf(argb);
    0.333 * (red as real) + 0.333 * (green as real) + 0.333 * (blue as real)
  }

  /** The cell value the builder stores for the pixel group starting at byte `p`. */
  function GroupValue(pixels: array<Int8>, p: int, hasAlpha: bool): (v: real)
    reads pixels
    requires 0 <= p && p + PixelLength(hasAlpha) <= pixels.Length
    ensures hasAlpha ==> -(TwoTo31 as real) <= v < TwoTo31 as real
    ensures !hasAlpha ==> 0.0 <= v <= 254.745
  {
    if hasAlpha then
      ArgbWithAlpha(pixels[p], pixels[p + 1], pixels[p + 2], pixels[p + 3]) as real
    else
      Intensity(OpaqueArgb(pixels[p], pixels[p + 1], pixels[p + 2]))
  }

  /** What a cell holds, in terms of the bytes of its group: the packed ARGB value, wrapped
      to a Java `int`, on the alpha path; 0.333 * (red + green + blue) on the other. */
  lemma GroupValueDecodes(pixels: array<Int8>, p: int, hasAlpha: bool)
    requires 0 <= p && p + PixelLength(hasAlpha) <= pixels.Length
    ensures hasAlpha ==>
      GroupValue(pixels, p, hasAlpha) ==
        (ArgbValue(UnsignedByte(pixels[p]), UnsignedByte(pixels[p + 3]), UnsignedByte(pixels[p + 2]), UnsignedByte(pixels[p + 1]))
         - (if UnsignedByte(pixels[p]) >= 128 then TwoTo32 else 0)) as real
    ensures hasAlpha ==> -(TwoTo31 as real) <= GroupValue(pixels, p, hasAlpha) < TwoTo31 as real
    ensures !hasAlpha ==>
      GroupValue(pixels, p, hasAlpha) ==
        0.333 * ((UnsignedByte(pixels[p + 2]) + UnsignedByte(pixels[p + 1]) + UnsignedByte(pixels[p])) as real)
    ensures !hasAlpha ==> 0.0 <= GroupValue(pixels, p, hasAlpha) <= 254.745
  {
    if !hasAlpha {
      UnpackOpaqueArgb(pixels[p], pixels[p + 1], pixels[p + 2]);
    }
  }

  /** A group of zero bytes becomes a zero cell on either path. */
  lemma ZeroGroupIsZeroCell(pixels: array<Int8>, p: int, hasAlpha: bool)
    requires 0 <= p && p + PixelLength(hasAlpha) <= pixels.Length
    requires forall i :: p <= i < p + PixelLength(hasAlpha) ==> pixels[i] == 0
    ensures GroupValue(pixels, p, hasAlpha) == 0.0
  {
    GroupValueDecodes(pixels, p, hasAlpha);
  }

  /** Cell (r, c) of a `width`-wide row-major grid is the pixel with this index. */
  function CellIndex(width: nat, r: nat, c: nat): nat {
    r * width + c
  }

  /** Distinct cells of a row have distinct row-major indexes. */
  lemma CellIndexInjective(width: nat, r: nat, c: nat, r': nat, c': nat)
    requires c < width && c' < width
    requires CellIndex(width, r, c) == CellIndex(width, r', c')
    ensures r == r' && c == c'
  {
    if r < r' {
      assert (r + 1) * width <= r' * width by { MulMonotone(r + 1, r', width); }
      assert false;
    } else if r' < r {
      assert (r' + 1) * width <= r * width by { MulMonotone(r' + 1, r, width); }
      assert false;
    }
  }

  /** Every cell of the grid other than (row, col) has an index other than its. */
  lemma OtherCellsOtherIndex(width: nat, row: nat, col: nat)
    requires col < width
    ensures forall r: nat, c: nat :: c < width && (r != row || c != col) ==>
      CellIndex(width, r, c) != CellIndex(width, row, col)
  {
    forall r: nat, c: nat | c < width && CellIndex(width, r, c) == CellIndex(width, row, col)
      ensures r == row && c == col
    {
      CellIndexInjective(width, r, c, row, col);
    }
  }

  /** Moving the cursor one column on, wrapping to the next row, steps the index by one. */
  lemma CellIndexNext(width: nat, row: nat, col: nat)
    requires col < width
    ensures col + 1 < width ==> CellIndex(width, row, col + 1) == CellIndex(width, row, col) + 1
    ensures col + 1 == width ==> CellIndex(width, row + 1, 0) == CellIndex(width, row, col) + 1
  {
    assert (row + 1) * width == row * width + width;
  }

  /** Every cell of a `height` x `width` grid has an index below `height * width`. */
  lemma CellIndexBelow(width: nat, height: nat, r: nat, c: nat)
    requires r < height && c < width
    ensures CellIndex(width, r, c) < height * width
  {
    MulMonotone(r + 1, height, width);
  }

  lemma MulMonotone(a: nat, b: nat, w: nat)
    requires a <= b
    ensures a * w <= b * w
  {
  }

  /** A cell index below `height * width` lies in a row below `height`. */
  lemma CellIndexRow(width: nat, height: nat, r: nat, c: nat)
    requires CellIndex(width, r, c) < height * width
    ensures r < height
  {
    if height <= r {
      MulMonotone(height, r, width);
    }
  }

  /** The number of whole pixel groups in a buffer of `length` bytes. */
  function GroupCount(length: nat, hasAlpha: bool): nat {
    length / PixelLength(hasAlpha)
  }

  /** The byte at which the group of pixel `i` starts. */
  function GroupStart(i: nat, hasAlpha: bool): nat {
    PixelLength(hasAlpha) * i
  }

  /** `cells` holds the decoded value of every whole pixel group of the buffer, in order. */
  ghost predicate Decodes(cells: seq<real>, pixels: array<Int8>, hasAlpha: bool)
    reads pixels
  {
    && |cells| == GroupCount(pixels.Length, hasAlpha)
    && forall i :: 0 <= i < |cells| ==>
         && GroupStart(i, hasAlpha) + PixelLength(hasAlpha) <= pixels.Length
         && cells[i] == GroupValue(pixels, GroupStart(i, hasAlpha), hasAlpha)
  }

  /** The decoded pixel groups of the buffer. */
  ghost function DecodedCells(pixels: array<Int8>, hasAlpha: bool): (cells: seq<real>)
    reads pixels
    ensures Decodes(cells, pixels, hasAlpha)
  {
    seq(GroupCount(pixels.Length, hasAlpha),
        i requires 0 <= i < GroupCount(pixels.Length, hasAlpha) reads pixels =>
          GroupValue(pixels, GroupStart(i, hasAlpha), hasAlpha))
  }

  /** What the grid holds once `k` pixel groups have been consumed: the first `k` cells in
      row-major order hold the first `k` decoded groups, every other cell still holds its
      initial 0. */
  ghost predicate FilledUpTo(result: array2<real>, cells: seq<real>, width: nat, k: nat)
    reads result
  {
    && k <= |cells|
    && forall r: nat, c: nat :: r < result.Length0 && c < result.Length1 && c < width ==>
         result[r, c] == if CellIndex(width, r, c) < k then cells[CellIndex(width, r, c)] else 0.0
  }

  /** `result[row][col] = ...` for pixel `k`, the group starting at byte `pixel`: the grid,
      filled up to `k`, is then filled up to `k + 1`. */
  method StoreCell(result: array2<real>, pixels: array<Int8>, width: nat, hasAlpha: bool,
                   ghost cells: seq<real>, ghost k: nat, pixel: nat, row: nat, col: nat)
    requires Decodes(cells, pixels, hasAlpha)
    requires FilledUpTo(result, cells, width, k)
    requires k < |cells| && col < width && k == CellIndex(width, row, col)
    requires pixel == GroupStart(k, hasAlpha)
    requires row < result.Length0 && result.Length1 == width
    modifies result
    ensures FilledUpTo(result, cells, width, k + 1)
  {
    assert cells[k] == GroupValue(pixels, pixel, hasAlpha);
    OtherCellsOtherIndex(width, row, col);
    result[row, col] := GroupValue(pixels, pixel, hasAlpha);
    forall r: nat, c: nat | r < result.Length0 && c < result.Length1 && c < width && (r != row || c != col)
      ensures result[r, c] == old(result[r, c])
    {
    }
  }

  /** `col++`, and at the end of a row `col = 0; row++`: the cursor moves to the next cell
      in row-major order. */
  method NextCursor(width: nat, row: nat, col: nat) returns (nextRow: nat, nextCol: nat)
    requires col < width
    ensures nextCol < width
    ensures CellIndex(width, nextRow, nextCol) == CellIndex(width, row, col) + 1
  {
    CellIndexNext(width, row, col);
    nextRow, nextCol := row, col + 1;
    if nextCol == width {
      nextCol := 0;
      nextRow := row + 1;
    }
  }

  /** The loop of the alpha path: four bytes per pixel, the cell holds the packed ARGB `int`. */
  method ArgbGrid(pixels: array<Int8>, width: nat, height: nat, ghost cells: seq<real>) returns (result: array2<real>)
    requires pixels.Length % 4 == 0 && GroupCount(pixels.Length, true) <= height * width
    requires Decodes(cells, pixels, true)
    ensures fresh(result)
    ensures result.Length0 == height && result.Length1 == width
    ensures FilledUpTo(result, cells, width, |cells|)
  {
    result := new real[height, width]((r, c) => 0.0);
    assert pixels.Length == 4 * |cells|;
    var pixelLength := 4;
    var pixel, row: nat, col: nat := 0, 0, 0;
    ghost var k: nat := 0;
    while pixel < pixels.Length
      invariant pixel == 4 * k && k <= |cells|
      invariant k == CellIndex(width, row, col)
      invariant col < width || (col == 0 && pixels.Length == 0)
      invariant FilledUpTo(result, cells, width, k)
      decreases pixels.Length - pixel
    {
      CellIndexRow(width, height, row, col);
      StoreCell(result, pixels, width, true, cells, k, pixel, row, col);
      row, col := NextCursor(width, row, col);
      pixel := pixel + pixelLength;
      k := k + 1;
    }
  }

  /** The loop of the no-alpha path: three bytes per pixel, the cell holds the grey level. */
  method GrayGrid(pixels: array<Int8>, width: nat, height: nat, ghost cells: seq<real>) returns (result: array2<real>)
    requires pixels.Length % 3 == 0 && GroupCount(pixels.Length, false) <= height * width
    requires Decodes(cells, pixels, false)
    ensures fresh(result)
    ensures result.Length0 == height && result.Length1 == width
    ensures FilledUpTo(result, cells, width, |cells|)
  {
    result := new real[height, width]((r, c) => 0.0);
    assert pixels.Length == 3 * |cells|;
    var pixelLength := 3;
    var pixel, row: nat, col: nat := 0, 0, 0;
    ghost var k: nat := 0;
    while pixel < pixels.Length
      invariant pixel == 3 * k && k <= |cells|
      invariant k == CellIndex(width, row, col)
      invariant col < width || (col == 0 && pixels.Length == 0)
      invariant FilledUpTo(result, cells, width, k)
      decreases pixels.Length - pixel
    {
      CellIndexRow(width, height, row, col);
      StoreCell(result, pixels, width, false, cells, k, pixel, row, col);
      row, col := NextCursor(width, row, col);
      pixel := pixel + pixelLength;
      k := k + 1;
    }
  }

  /** A buffer of exactly `height * width` pixel groups reaches every cell of the grid, so
      no cell is left at its initial 0 by running out of bytes. */
  lemma ExactBufferFillsEveryCell(length: nat, width: nat, height: nat, hasAlpha: bool)
    requires GroupCount(length, hasAlpha) == height * width
    ensures forall r: nat, c: nat :: r < height && c < width ==> CellIndex(width, r, c) < GroupCount(length, hasAlpha)
  {
    forall r: nat, c: nat | r < height && c < width
      ensures CellIndex(width, r, c) < GroupCount(length, hasAlpha)
    {
      CellIndexBelow(width, height, r, c);
    }
  }

  /**
   * The byte loops of the builder.  The buffer must be a whole number of pixel groups and
   * hold no more pixels than the grid (a shorter one leaves the trailing cells at 0);
   * otherwise the loop reads past the buffer or writes past the grid.
   */
  method ConvertTo2DWithoutUsingGetRgb(pixels: array<Int8>, width: nat, height: nat, hasAlpha: bool)
    returns (result: array2<real>)
    requires pixels.Length % PixelLength(hasAlpha) == 0
    requires GroupCount(pixels.Length, hasAlpha) <= height * width
    ensures fresh(result)
    ensures result.Length0 == height && result.Length1 == width
    ensures forall r: nat, c: nat :: r < height && c < width ==>
      result[r, c] == if CellIndex(width, r, c) < GroupCount(pixels.Length, hasAlpha)
                      then GroupValue(pixels, GroupStart(CellIndex(width, r, c), hasAlpha), hasAlpha)
                      else 0.0
    ensures GroupCount(pixels.Length, hasAlpha) == height * width ==>
      forall r: nat, c: nat :: r < height && c < width ==>
        && CellIndex(width, r, c) < GroupCount(pixels.Length, hasAlpha)
        && result[r, c] == GroupValue(pixels, GroupStart(CellIndex(width, r, c), hasAlpha), hasAlpha)
    ensures (forall i :: 0 <= i < pixels.Length ==> pixels[i] == 0) ==>
      forall r: nat, c: nat :: r < height && c < width ==> result[r, c] == 0.0
  {
    ghost var cells := DecodedCells(pixels, hasAlpha);
    if hasAlpha {
      result := ArgbGrid(pixels, width, height, cells);
    } else {
      result := GrayGrid(pixels, width, height, cells);
    }
    forall r: nat, c: nat | r < height && c < width
      ensures (forall i :: 0 <= i < pixels.Length ==> pixels[i] == 0) && CellIndex(width, r, c) < GroupCount(pixels.Length, hasAlpha) ==>
        GroupValue(pixels, GroupStart(CellIndex(width, r, c), hasAlpha), hasAlpha) == 0.0
    {
      if (forall i :: 0 <= i < pixels.Length ==> pixels[i] == 0) && CellIndex(width, r, c) < GroupCount(pixels.Length, hasAlpha) {
        ZeroGroupIsZeroCell(pixels, GroupStart(CellIndex(width, r, c), hasAlpha), hasAlpha);
      }
    }
    if GroupCount(pixels.Length, hasAlpha) == height * width {
      ExactBufferFillsEveryCell(pixels.Length, width, height, hasAlpha);
    }
  }
}
