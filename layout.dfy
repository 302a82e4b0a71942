/**
 * The fixed tiling table of the window manager: the rectangle of slot `index`
 * when `total` windows (1 to 4) share the output. Every coordinate is a
 * fraction of the output measured in halves (0, 1 or 2 halves of the width or
 * height); the pixel value is that fraction of the output extent, truncated.
 */
module Layout {

  /** Most windows one workspace shows at once. */
  const MaxWindows: int := 4
  /** Length of the size table: 4! entries, of which the first 10 are filled in. */
  const SizeCombinations: int := 4 * 3 * 2 * 1

  datatype Point = Point(x: int, y: int)
  datatype Size = Size(width: int, height: int)

  /** A fraction of one output extent, counted in halves. */
  type Half = h: int | 0 <= h <= 2

  /** A pair of fractions: of the output width and of the output height. */
  datatype Fraction = Fraction(x: Half, y: Half)

  /** Origins of the four slots: top-left, top-right, bottom-right, bottom-left. */
  const Positions: seq<Fraction> :=
    [Fraction(0, 0), Fraction(1, 0), Fraction(1, 1), Fraction(0, 1)]

  /** Sizes, grouped by total: 1 entry for one window, 2 for two, 3 for three, 4 for four;
      the remaining entries of the static table are zero-initialised. */
  const Sizes: seq<Fraction> :=
    [Fraction(2, 2),
     Fraction(1, 2), Fraction(1, 2),
     Fraction(1, 2), Fraction(1, 1), Fraction(1, 1),
     Fraction(1, 1), Fraction(1, 1), Fraction(1, 1), Fraction(1, 1),
     Fraction(0, 0), Fraction(0, 0), Fraction(0, 0), Fraction(0, 0), Fraction(0, 0),
     Fraction(0, 0), Fraction(0, 0), Fraction(0, 0), Fraction(0, 0), Fraction(0, 0),
     Fraction(0, 0), Fraction(0, 0), Fraction(0, 0), Fraction(0, 0)]

  /** Where the group of sizes for a given total starts in `Sizes`. */
  const StartIndex: seq<int> := [0, 1, 3, 6]

  /** The entry of `Sizes` that size_for reads for slot `index` of `total` windows. */
  function SizeIndex(index: int, total: int): (k: int)
    requires 1 <= total <= MaxWindows && 0 <= index < MaxWindows
    ensures k == total * (total - 1) / 2 + index
    ensures 0 <= k < SizeCombinations
    ensures index < total ==> k < 10
  {
    StartIndex[total - 1] + index
  }

  /** `h` halves of `extent` pixels: the float product (0, 0.5 or 1 times the extent) truncated
      toward zero. */
  function Scale(h: Half, extent: nat): (r: nat)
    ensures r <= extent
    ensures h == 0 ==> r == 0
    ensures h == 2 ==> r == extent
  {
    if h == 0 then 0 else if h == 1 then extent / 2 else extent
  }

  /** Origin of slot `index`; it does not depend on how many windows are tiled. */
  function PositionFor(index: int, width: nat, height: nat): (p: Point)
    requires 0 <= index < MaxWindows
    ensures 0 <= p.x <= width / 2 && 0 <= p.y <= height / 2
  {
    var f := Positions[index];
    Point(Scale(f.x, width), Scale(f.y, height))
  }

  /** The fraction of the output slot `index` covers when `total` windows are tiled. */
  function SizeFraction(index: int, total: int): Fraction
    requires 1 <= total <= MaxWindows && 0 <= index < MaxWindows
  {
    Sizes[SizeIndex(index, total)]
  }

  /** Size of slot `index` out of `total`. */
  function SizeFor(index: int, total: int, width: nat, height: nat): (s: Size)
    requires 1 <= total <= MaxWindows && 0 <= index < MaxWindows
    ensures 0 <= s.width <= width && 0 <= s.height <= height
    ensures index < total ==> s.width >= width / 2 && s.height >= height / 2
  {
    var f := SizeFraction(index, total);
    Size(Scale(f.x, width), Scale(f.y, height))
  }

  /** (cx, cy) is one of the four half-cells of the output. */
  predicate InHalfGrid(cx: int, cy: int)
  {
    0 <= cx < 2 && 0 <= cy < 2
  }

  /** (px, py) is a pixel of a width x height output. */
  predicate InOutput(width: nat, height: nat, px: int, py: int)
  {
    0 <= px < width && 0 <= py < height
  }

  /** Slot `index` of a `total`-window layout covers the half-cell (cx, cy) of the 2x2 grid. */
  predicate CoversCell(index: int, total: int, cx: int, cy: int)
    requires 1 <= total <= MaxWindows && 0 <= index < MaxWindows
  {
    var p := Positions[index];
    var s := SizeFraction(index, total);
    p.x <= cx < p.x + s.x && p.y <= cy < p.y + s.y
  }

  /** The slot that covers half-cell (cx, cy); used as the witness of coverage. */
  function CellOwner(total: int, cx: int, cy: int): int
  {
    if total == 1 then 0
    else if total == 2 then cx
    else if total == 3 then (if cx == 0 then 0 else 1 + cy)
    else if cy == 0 then cx
    else 3 - cx
  }

  /** For every supported total, the slots 0..total-1 are non-empty rectangles inside
      the output, no two of them share a half-cell, and together they cover every half-cell. */
  lemma {:induction false} LayoutTilesOutput(total: int)
    requires 1 <= total <= MaxWindows
    ensures forall index :: 0 <= index < total ==>
      1 <= SizeFraction(index, total).x && 1 <= SizeFraction(index, total).y &&
      Positions[index].x + SizeFraction(index, total).x <= 2 &&
      Positions[index].y + SizeFraction(index, total).y <= 2
    ensures forall cx, cy :: InHalfGrid(cx, cy) ==>
      exists index :: 0 <= index < total && CoversCell(index, total, cx, cy)
    ensures forall i, j, cx, cy :: 0 <= i < j < total && CoversCell(i, total, cx, cy) ==>
      !CoversCell(j, total, cx, cy)
  {
    forall index | 0 <= index < total
      ensures 1 <= SizeFraction(index, total).x && 1 <= SizeFraction(index, total).y
      ensures Positions[index].x + SizeFraction(index, total).x <= 2
      ensures Positions[index].y + SizeFraction(index, total).y <= 2
    {
      SlotFits(index, total);
    }
    forall cx, cy | InHalfGrid(cx, cy)
      ensures exists index :: 0 <= index < total && CoversCell(index, total, cx, cy)
    {
      CellOwnerCovers(total, cx, cy);
    }
    forall i, j, cx, cy | 0 <= i < j < total && CoversCell(i, total, cx, cy)
      ensures !CoversCell(j, total, cx, cy)
    {
      SlotsDisjoint(i, j, total, cx, cy);
    }
  }

  /** One slot is a non-empty rectangle inside the output. */
  lemma SlotFits(index: int, total: int)
    requires 1 <= total <= MaxWindows && 0 <= index < total
    ensures 1 <= SizeFraction(index, total).x && 1 <= SizeFraction(index, total).y
    ensures Positions[index].x + SizeFraction(index, total).x <= 2
    ensures Positions[index].y + SizeFraction(index, total).y <= 2
  {
  }

  /** CellOwner names a slot that covers the half-cell. */
  lemma CellOwnerCovers(total: int, cx: int, cy: int)
    requires 1 <= total <= MaxWindows && InHalfGrid(cx, cy)
    ensures 0 <= CellOwner(total, cx, cy) < total && CoversCell(CellOwner(total, cx, cy), total, cx, cy)
  {
    var k := CellOwner(total, cx, cy);
    assert SizeIndex(k, total) == StartIndex[total - 1] + k;
  }

  /** Two different slots never cover the same half-cell. */
  lemma SlotsDisjoint(i: int, j: int, total: int, cx: int, cy: int)
    requires 1 <= total <= MaxWindows && 0 <= i < j < total && CoversCell(i, total, cx, cy)
    ensures !CoversCell(j, total, cx, cy)
  {
    assert total == 2 || total == 3 || total == 4;
  }

  /** Slot `index` out of `total` covers pixel (px, py) of a width x height output. */
  predicate CoversPixel(index: int, total: int, width: nat, height: nat, px: int, py: int)
    requires 1 <= total <= MaxWindows && 0 <= index < MaxWindows
  {
    var p := PositionFor(index, width, height);
    var s := SizeFor(index, total, width, height);
    p.x <= px < p.x + s.width && p.y <= py < p.y + s.height
  }

  /** The half of an even extent `2 * half` that pixel coordinate `p` falls into. */
  function CellOf(p: int, half: nat): int
  {
    if p < half then 0 else 1
  }

  lemma ScaleEven(h: Half, half: nat)
    ensures Scale(h, 2 * half) == h * half
  {
    assert h == 0 || h == 1 || h == 2;
  }

  /** Inside the output, `lo * half <= p < hi * half` is the same test on the half-cell of `p`. */
  lemma HalfBounds(lo: int, hi: int, half: nat, p: int)
    requires 0 <= lo <= 2 && 0 <= hi <= 4 && 0 <= p < 2 * half
    ensures (lo * half <= p < hi * half) <==> (lo <= CellOf(p, half) < hi)
  {
    assert lo == 0 || lo == 1 || lo == 2;
    assert hi == 0 || hi == 1 || hi == 2 || hi == 3 || hi == 4;
  }

  /** On an output of even width and height, pixel coverage is half-cell coverage. */
  lemma PixelInCell(index: int, total: int, a: nat, b: nat, px: int, py: int)
    requires 1 <= total <= MaxWindows && 0 <= index < MaxWindows
    requires 0 <= px < 2 * a && 0 <= py < 2 * b
    ensures CoversPixel(index, total, 2 * a, 2 * b, px, py) <==>
      CoversCell(index, total, CellOf(px, a), CellOf(py, b))
  {
    var p := Positions[index];
    var s := SizeFraction(index, total);
    ScaleEven(p.x, a);
    ScaleEven(s.x, a);
    ScaleEven(p.y, b);
    ScaleEven(s.y, b);
    assert p.x * a + s.x * a == (p.x + s.x) * a;
    assert p.y * b + s.y * b == (p.y + s.y) * b;
    HalfBounds(p.x, p.x + s.x, a, px);
    HalfBounds(p.y, p.y + s.y, b, py);
  }

  /** On an output of even width and height the layout tiles the pixels exactly:
      every pixel is covered by exactly one of slots 0..total-1, and no slot reaches outside. */
  lemma {:induction false} LayoutTilesPixels(total: int, width: nat, height: nat)
    requires 1 <= total <= MaxWindows && width % 2 == 0 && height % 2 == 0
    ensures forall px, py :: InOutput(width, height, px, py) ==>
      exists index :: 0 <= index < total && CoversPixel(index, total, width, height, px, py)
    ensures forall i, j, px, py ::
      0 <= i < j < total && InOutput(width, height, px, py) && CoversPixel(i, total, width, height, px, py) ==>
        !CoversPixel(j, total, width, height, px, py)
    ensures forall index, px, py :: 0 <= index < total && CoversPixel(index, total, width, height, px, py) ==>
      InOutput(width, height, px, py)
  {
    var a, b := width / 2, height / 2;
    assert width == 2 * a && height == 2 * b;
    LayoutTilesOutput(total);
    forall px, py | InOutput(width, height, px, py)
      ensures exists index :: 0 <= index < total && CoversPixel(index, total, width, height, px, py)
    {
      var cx, cy := CellOf(px, a), CellOf(py, b);
      assert InHalfGrid(cx, cy);
      var k :| 0 <= k < total && CoversCell(k, total, cx, cy);
      PixelInCell(k, total, a, b, px, py);
    }
    forall i, j, px, py |
      0 <= i < j < total && InOutput(width, height, px, py) && CoversPixel(i, total, width, height, px, py)
      ensures !CoversPixel(j, total, width, height, px, py)
    {
      PixelInCell(i, total, a, b, px, py);
      PixelInCell(j, total, a, b, px, py);
    }
    forall index, px, py | 0 <= index < total && CoversPixel(index, total, width, height, px, py)
      ensures InOutput(width, height, px, py)
    {
      var p := Positions[index];
      var s := SizeFraction(index, total);
      ScaleEven(p.x, a);
      ScaleEven(s.x, a);
      ScaleEven(p.y, b);
      ScaleEven(s.y, b);
      assert p.x * a + s.x * a == (p.x + s.x) * a <= 2 * a;
      assert p.y * b + s.y * b == (p.y + s.y) * b <= 2 * b;
    }
  }

  /** With an odd width the truncated halves leave the last pixel column uncovered:
      for two windows on a 3-pixel-wide output, column 2 belongs to neither slot. */
  lemma OddWidthLeavesColumn()
    ensures !CoversPixel(0, 2, 3, 2, 2, 0) && !CoversPixel(1, 2, 3, 2, 2, 0)
    ensures PositionFor(1, 3, 2).x + SizeFor(1, 2, 3, 2).width == 2
  {
  }

  /** With an odd height the bottom pixel row is left to no slot once the right half is split:
      for three windows on a 2x3 output, pixel (1, 2) is covered by none of slots 0..2. */
  lemma OddHeightLeavesRow()
    ensures forall index :: 0 <= index < 3 ==> !CoversPixel(index, 3, 2, 3, 1, 2)
    ensures PositionFor(2, 2, 3).y + SizeFor(2, 3, 2, 3).height == 2
  {
  }

  /** A single window is given the whole output whatever its size, odd or even: it covers
      exactly the output's pixels. */
  lemma SingleWindowTilesAnySize(width: nat, height: nat)
    ensures forall px, py :: CoversPixel(0, 1, width, height, px, py) <==> InOutput(width, height, px, py)
  {
  }
}
