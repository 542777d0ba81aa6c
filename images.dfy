/**
 * Images: the two raster types the labeller works on (an 8-bit binary image and a
 * 32-bit label image), stored row by row in a flat array starting at `startIndex`
 * with `stride` cells between the starts of consecutive rows, plus a value view of
 * an image's contents (`Grid`) that specifications and the tracer's walk work on.
 */
module Images {

  newtype Byte = b: int | 0 <= b < 256

  datatype Point = Point(x: int, y: int)

  /**
   * The storage layout of a `width` x `height` image inside an array of `length`
   * cells: rows do not overlap (`width <= stride`) and the last row ends inside the array.
   */
  ghost predicate Layout(width: nat, height: nat, startIndex: nat, stride: nat, length: nat) {
    width <= stride && (height > 0 ==> startIndex + (height - 1) * stride + width <= length)
  }

  lemma MulMonotone(a: nat, b: nat, c: nat)
    requires a <= b
    ensures a * c <= b * c
  {
  }

  /** Every pixel of the window lies inside the array. */
  lemma {:induction false} CellInBounds(width: nat, height: nat, startIndex: nat, stride: nat, length: nat, x: int, y: int)
    requires Layout(width, height, startIndex, stride, length)
    requires 0 <= x < width && 0 <= y < height
    ensures 0 <= startIndex + y * stride + x < length
  {
    MulMonotone(y, height - 1, stride);
  }

  /** Distinct pixels of the window occupy distinct cells. */
  lemma {:induction false} CellInjective(width: nat, stride: nat, x1: int, y1: int, x2: int, y2: int)
    requires width <= stride
    requires 0 <= x1 < width && 0 <= y1 && 0 <= x2 < width && 0 <= y2
    requires y1 * stride + x1 == y2 * stride + x2
    ensures x1 == x2 && y1 == y2
  {
    if y1 < y2 {
      MulMonotone(y1 + 1, y2, stride);
      assert false;
    } else if y2 < y1 {
      MulMonotone(y2 + 1, y1, stride);
      assert false;
    }
  }

  /** In a compact layout (`stride == width`, no offset) cell `i` holds pixel (i % width, i / width). */
  lemma CompactCell(width: nat, x: int, y: int)
    requires 0 <= x < width && 0 <= y
    ensures (y * width + x) / width == y && (y * width + x) % width == x
  {
    var n := y * width + x;
    assert n == (n / width) * width + n % width;
    CellInjective(width, width, x, y, n % width, n / width);
  }

  /** Every cell of a compact `width` x `height` array is a pixel of the window. */
  lemma CompactRange(width: nat, height: nat, i: int)
    requires 0 <= i < width * height
    ensures 0 <= i / width < height && 0 <= i % width < width
    ensures i == (i / width) * width + i % width
  {
    if i / width >= height {
      MulMonotone(height, i / width, width);
    }
  }

  /** In a compact grid, cell `i` is pixel (i % width, i / width). */
  lemma CompactAt(g: Grid, i: int)
    requires g.Valid() && g.startIndex == 0 && g.stride == g.width && 0 <= i < g.width * g.height
    ensures g.InBounds(i % g.width, i / g.width) && g.At(i % g.width, i / g.width) == g.cells[i]
  {
    CompactRange(g.width, g.height, i);
  }

  /** A compact `width` x `height` layout fits an array of `width * height` cells. */
  lemma CompactLayout(width: nat, height: nat)
    ensures Layout(width, height, 0, width, width * height)
  {
    assert height > 0 ==> (height - 1) * width + width == width * height;
  }

  /**
   * The contents of an 8-bit image as a value: a `width` x `height` window of `cells`,
   * pixel (x, y) at `startIndex + y * stride + x`.
   */
  datatype Grid = Grid(width: nat, height: nat, cells: seq<Byte>, startIndex: nat, stride: nat)
  {
    ghost predicate Valid() {
      Layout(width, height, startIndex, stride, |cells|)
    }

    predicate InBounds(x: int, y: int) {
      0 <= x < width && 0 <= y < height
    }

    function At(x: int, y: int): Byte
      requires Valid() && InBounds(x, y)
    {
      CellInBounds(width, height, startIndex, stride, |cells|, x, y);
      cells[startIndex + y * stride + x]
    }

    ghost predicate IsForeground(p: Point)
      requires Valid()
    {
      InBounds(p.x, p.y) && At(p.x, p.y) == 1
    }
  }

  // ---------------------------------------------------------------------------
  // Raster order

  /** The foreground pixels (0, y) .. (n - 1, y), left to right. */
  ghost function RowForeground(g: Grid, y: int, n: int): seq<Point>
    requires g.Valid() && 0 <= y < g.height && 0 <= n <= g.width
  {
    if n == 0 then []
    else RowForeground(g, y, n - 1) + (if g.At(n - 1, y) == 1 then [Point(n - 1, y)] else [])
  }

  /** The foreground pixels of rows 0 .. n - 1 in raster order. */
  ghost function RowsForeground(g: Grid, n: int): seq<Point>
    requires g.Valid() && 0 <= n <= g.height
  {
    if n == 0 then [] else RowsForeground(g, n - 1) + RowForeground(g, n - 1, g.width)
  }

  ghost predicate RasterBefore(p: Point, q: Point) {
    p.y < q.y || (p.y == q.y && p.x < q.x)
  }

  /** The raster scan lists its pixels in strictly increasing raster order. */
  lemma {:induction false} RowForegroundOrdered(g: Grid, y: int, n: int)
    requires g.Valid() && 0 <= y < g.height && 0 <= n <= g.width
    ensures forall p :: p in RowForeground(g, y, n) <==> 0 <= p.x < n && p.y == y && g.At(p.x, y) == 1
    ensures forall i, j :: 0 <= i < j < |RowForeground(g, y, n)| ==>
      RasterBefore(RowForeground(g, y, n)[i], RowForeground(g, y, n)[j])
  {
    if n > 0 {
      RowForegroundOrdered(g, y, n - 1);
    }
  }

  /**
   * Every foreground pixel occurs in the raster scan, exactly once, and nothing else
   * does: each foreground pixel gets exactly one visit.
   */
  lemma {:induction false} ForegroundVisitedOnce(g: Grid, n: int)
    requires g.Valid() && 0 <= n <= g.height
    ensures forall p :: p in RowsForeground(g, n) <==> g.IsForeground(p) && p.y < n
    ensures forall i, j :: 0 <= i < j < |RowsForeground(g, n)| ==>
      RasterBefore(RowsForeground(g, n)[i], RowsForeground(g, n)[j])
  {
    if n > 0 {
      ForegroundVisitedOnce(g, n - 1);
      RowForegroundOrdered(g, n - 1, g.width);
      var a, b := RowsForeground(g, n - 1), RowForeground(g, n - 1, g.width);
      assert RowsForeground(g, n) == a + b;
      forall i, j | 0 <= i < j < |a + b|
        ensures RasterBefore((a + b)[i], (a + b)[j])
      {
        if j < |a| {
        } else if i < |a| {
          assert a[i] in a && b[j - |a|] in b;
        } else {
          assert (a + b)[i] == b[i - |a|] && (a + b)[j] == b[j - |a|];
        }
      }
    }
  }

  /** An 8-bit image (the binary input: 0 is background, 1 is foreground). */
  class ImageUInt8 {
    const width: nat
    const height: nat
    const startIndex: nat
    const stride: nat
    const data: array<Byte>

    ghost predicate Valid()
    {
      Layout(width, height, startIndex, stride, data.Length)
    }

    /** An image that owns its whole array, row after row. */
    ghost predicate Compact()
    {
      startIndex == 0 && stride == width && data.Length == width * height
    }

    predicate InWindow(x: int, y: int)
    {
      0 <= x < width && 0 <= y < height
    }

    function Index(x: int, y: int): int
    {
      startIndex + y * stride + x
    }

    function Get(x: int, y: int): Byte
      requires Valid() && InWindow(x, y)
      reads data
    {
      CellInBounds(width, height, startIndex, stride, data.Length, x, y);
      data[Index(x, y)]
    }

    /** The pixel contents of the window. */
    function ToGrid(): (g: Grid)
      requires Valid()
      reads data
      ensures g.Valid() && g.width == width && g.height == height
    {
      Grid(width, height, data[..], startIndex, stride)
    }

    /** The view and the image agree pixel by pixel. */
    lemma ToGridAt(x: int, y: int)
      requires Valid() && InWindow(x, y)
      ensures ToGrid().At(x, y) == Get(x, y)
    {
      CellInBounds(width, height, startIndex, stride, data.Length, x, y);
    }

    /** A compact image with every pixel 0. */
    constructor (width: nat, height: nat)
      ensures Valid() && Compact() && fresh(data)
      ensures this.width == width && this.height == height
      ensures forall i :: 0 <= i < data.Length ==> data[i] == 0
    {
      this.width, this.height := width, height;
      startIndex, stride := 0, width;
      data := new Byte[width * height](_ => 0);
      CompactLayout(width, height);
    }

    /** Pixel (x, y) becomes `v`; no other cell changes. */
    method Set(x: int, y: int, v: Byte)
      requires Valid() && InWindow(x, y)
      modifies data
      ensures forall i :: 0 <= i < data.Length ==> data[i] == if i == Index(x, y) then v else old(data[i])
      ensures forall x', y' :: InWindow(x', y') ==> Get(x', y') == if x' == x && y' == y then v else old(Get(x', y'))
    {
      CellInBounds(width, height, startIndex, stride, data.Length, x, y);
      data[Index(x, y)] := v;
      forall x', y' | InWindow(x', y')
        ensures Get(x', y') == if x' == x && y' == y then v else old(Get(x', y'))
      {
        CellInBounds(width, height, startIndex, stride, data.Length, x', y');
        if Index(x', y') == Index(x, y) {
          CellInjective(width, stride, x', y', x, y);
        }
      }
    }

    /** Every pixel of the (compact) image becomes `v` (`ImageMiscOps.fill`). */
    method Fill(v: Byte)
      requires Valid() && Compact()
      modifies data
      ensures forall i :: 0 <= i < data.Length ==> data[i] == v
      ensures forall x, y :: InWindow(x, y) ==> Get(x, y) == v
    {
      var i := 0;
      while i < data.Length
        invariant 0 <= i <= data.Length
        invariant forall j :: 0 <= j < i ==> data[j] == v
      {
        data[i] := v;
        i := i + 1;
      }
      forall x, y | InWindow(x, y)
        ensures Get(x, y) == v
      {
        CellInBounds(width, height, startIndex, stride, data.Length, x, y);
      }
    }

    /**
     * Copies `pattern` into the window with its top-left pixel at (x0, y0), as
     * `subimage(x0, y0, x0 + pattern.width, y0 + pattern.height).setTo(pattern)` does;
     * every pixel outside the pasted block keeps its value.
     */
    method Paste(pattern: ImageUInt8, x0: nat, y0: nat)
      requires Valid() && Compact() && pattern.Valid() && pattern.data != data
      requires x0 + pattern.width <= width && y0 + pattern.height <= height
      modifies data
      ensures forall x, y :: InWindow(x, y) ==>
        Get(x, y) == if pattern.InWindow(x - x0, y - y0) then pattern.Get(x - x0, y - y0) else old(Get(x, y))
    {
      var i := 0;
      while i < data.Length
        invariant 0 <= i <= data.Length
        invariant forall j :: 0 <= j < i ==>
          0 <= j / width < height && 0 <= j % width < width &&
          data[j] == if pattern.InWindow(j % width - x0, j / width - y0)
                     then pattern.Get(j % width - x0, j / width - y0) else old(data[j])
        invariant forall j :: i <= j < data.Length ==> data[j] == old(data[j])
      {
        CompactRange(width, height, i);
        var x, y := i % width, i / width;
        if pattern.InWindow(x - x0, y - y0) {
          data[i] := pattern.Get(x - x0, y - y0);
        }
        i := i + 1;
      }
      forall x, y | InWindow(x, y)
        ensures Get(x, y) == if pattern.InWindow(x - x0, y - y0) then pattern.Get(x - x0, y - y0) else old(Get(x, y))
      {
        CompactCell(width, x, y);
        CellInBounds(width, height, startIndex, stride, data.Length, x, y);
      }
    }

    /** Sets every pixel within `radius` of the edge to `v` (`ImageMiscOps.fillBorder`). */
    method FillBorder(v: Byte, radius: nat)
      requires Valid() && Compact()
      modifies data
      ensures forall x, y :: InWindow(x, y) ==>
        Get(x, y) == if x < radius || y < radius || x >= width - radius || y >= height - radius
                     then v else old(Get(x, y))
    {
      var i := 0;
      while i < data.Length
        invariant 0 <= i <= data.Length
        invariant forall j :: 0 <= j < i ==>
          0 <= j / width < height && 0 <= j % width < width &&
          data[j] == if j % width < radius || j / width < radius ||
                        j % width >= width - radius || j / width >= height - radius
                     then v else old(data[j])
        invariant forall j :: i <= j < data.Length ==> data[j] == old(data[j])
      {
        CompactRange(width, height, i);
        var x, y := i % width, i / width;
        if x < radius || y < radius || x >= width - radius || y >= height - radius {
          data[i] := v;
        }
        i := i + 1;
      }
      forall x, y | InWindow(x, y)
        ensures Get(x, y) == if x < radius || y < radius || x >= width - radius || y >= height - radius
                             then v else old(Get(x, y))
      {
        CompactCell(width, x, y);
        CellInBounds(width, height, startIndex, stride, data.Length, x, y);
      }
    }
  }

  /** A 32-bit signed image (the label image: 0 is unlabelled, k > 0 is region k). */
  class ImageSInt32 {
    const width: nat
    const height: nat
    const startIndex: nat
    const stride: nat
    const data: array<int>

    ghost predicate Valid()
    {
      Layout(width, height, startIndex, stride, data.Length)
    }

    ghost predicate Compact()
    {
      startIndex == 0 && stride == width && data.Length == width * height
    }

    predicate InWindow(x: int, y: int)
    {
      0 <= x < width && 0 <= y < height
    }

    function Index(x: int, y: int): int
    {
      startIndex + y * stride + x
    }

    function Get(x: int, y: int): int
      requires Valid() && InWindow(x, y)
      reads data
    {
      CellInBounds(width, height, startIndex, stride, data.Length, x, y);
      data[Index(x, y)]
    }

    /** A compact image with every label 0. */
    constructor (width: nat, height: nat)
      ensures Valid() && Compact() && fresh(data)
      ensures this.width == width && this.height == height
      ensures forall i :: 0 <= i < data.Length ==> data[i] == 0
    {
      this.width, this.height := width, height;
      startIndex, stride := 0, width;
      data := new int[width * height](_ => 0);
      CompactLayout(width, height);
    }

    /** Every cell of the (compact) image becomes `v` (`ImageMiscOps.fill`). */
    method Fill(v: int)
      requires Valid() && Compact()
      modifies data
      ensures forall i :: 0 <= i < data.Length ==> data[i] == v
      ensures forall x, y :: InWindow(x, y) ==> Get(x, y) == v
    {
      var i := 0;
      while i < data.Length
        invariant 0 <= i <= data.Length
        invariant forall j :: 0 <= j < i ==> data[j] == v
      {
        data[i] := v;
        i := i + 1;
      }
      forall x, y | InWindow(x, y)
        ensures Get(x, y) == v
      {
        CellInBounds(width, height, startIndex, stride, data.Length, x, y);
      }
    }
  }
}
