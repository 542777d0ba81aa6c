/**
 * Tracing: the contour tracer as the labeller and its test see it. Its step rule is
 * not part of this model: the boundary walk it performs is the parameter `walker`,
 * a function from the binary image, the start pixel and the start direction to the
 * pixels visited, in visit order, revisits included. Likewise `border` stands for the
 * tracer's coordinate convention: a walk pixel p of the binary image is stamped at
 * (p.x - border, p.y - border) of the label image.
 */
module Tracing {
  import opened Images
  import opened Storage

  type Walker = (Grid, Point, int) -> seq<Point>

  /** A walk from `start`: it is not empty, it begins at `start` and it visits only foreground pixels. */
  ghost predicate WalkFrom(g: Grid, start: Point, walk: seq<Point>)
    requires g.Valid()
  {
    |walk| > 0 && walk[0] == start && forall p :: p in walk ==> g.IsForeground(p)
  }

  /** What the labeller and the test rely on from the tracer's walk, on every image. */
  ghost predicate WalkerSound(walker: Walker) {
    forall g: Grid, start: Point, dir: int ::
      g.Valid() && g.IsForeground(start) ==> WalkFrom(g, start, walker(g, start, dir))
  }

  /** The walk a sound walker performs from a foreground pixel. */
  lemma SoundWalk(walker: Walker, g: Grid, start: Point, dir: int)
    requires WalkerSound(walker) && g.Valid() && g.IsForeground(start)
    ensures WalkFrom(g, start, walker(g, start, dir))
  {
  }

  /** Every foreground pixel of `g`, moved by the tracer's convention, lies in the label window. */
  ghost predicate Registered(g: Grid, labeled: ImageSInt32, border: int)
    requires g.Valid()
  {
    forall p :: g.IsForeground(p) ==> labeled.InWindow(p.x - border, p.y - border)
  }

  /** The label cells a walk stamps. */
  ghost function StampCells(labeled: ImageSInt32, border: int, walk: seq<Point>): set<int>
  {
    set p | p in walk :: labeled.Index(p.x - border, p.y - border)
  }

  lemma StampCellsSnoc(labeled: ImageSInt32, border: int, walk: seq<Point>, p: Point)
    ensures StampCells(labeled, border, walk + [p])
         == StampCells(labeled, border, walk) + {labeled.Index(p.x - border, p.y - border)}
  {
    var cell := labeled.Index(p.x - border, p.y - border);
    assert p in walk + [p];
    forall q | q in walk ensures q in walk + [p] { }
  }

  class ContourTracer {
    const walker: Walker
    const border: int
    var binary: ImageUInt8?
    var labeled: ImageSInt32?
    var storagePoints: FastQueue?<Point>
    /** The contents of `binary` when the inputs were set. */
    ghost var grid: Grid

    /** Inputs set. */
    ghost predicate Ready()
      reads this
    {
      binary != null && labeled != null && storagePoints != null && binary.Valid() && labeled.Valid()
    }

    constructor (walker: Walker, border: int)
      ensures this.walker == walker && this.border == border
      ensures binary == null && labeled == null && storagePoints == null
    {
      this.walker, this.border := walker, border;
      binary, labeled, storagePoints := null, null, null;
      grid := Grid(0, 0, [], 0, 0);
    }

    /** The images to trace in and label, and the pool that receives every traced point. */
    method SetInputs(binary: ImageUInt8, labeled: ImageSInt32, storagePoints: FastQueue<Point>)
      requires binary.Valid() && labeled.Valid() && storagePoints.Valid()
      modifies this
      ensures Ready() && storagePoints.Valid()
      ensures this.binary == binary && this.labeled == labeled && this.storagePoints == storagePoints
      ensures grid == binary.ToGrid()
    {
      this.binary, this.labeled, this.storagePoints := binary, labeled, storagePoints;
      grid := binary.ToGrid();
    }

    /**
     * Traces the contour through (x, y) starting the search in direction `dir`: every
     * walk pixel is stamped with `target` in the label image, and the walk is appended
     * both to the caller's `list` and to the shared point pool, so the two grow by the
     * same count.
     */
    method Trace(target: int, x: int, y: int, dir: int, list: seq<Point>) returns (list': seq<Point>)
      requires Ready() && storagePoints.Valid() && grid == binary.ToGrid()
      requires grid.IsForeground(Point(x, y))
      requires Registered(grid, labeled, border)
      requires WalkFrom(grid, Point(x, y), walker(grid, Point(x, y), dir))
      modifies labeled.data, storagePoints
      ensures list' == list + walker(grid, Point(x, y), dir)
      ensures storagePoints.Valid()
      ensures storagePoints.Items() == old(storagePoints.Items()) + list'[|list|..]
      ensures forall i :: 0 <= i < labeled.data.Length ==>
        labeled.data[i] == if i in StampCells(labeled, border, list'[|list|..]) then target else old(labeled.data[i])
    {
      var walk := walker(binary.ToGrid(), Point(x, y), dir);
      forall q | q in walk
        ensures labeled.InWindow(q.x - border, q.y - border)
      {
        assert grid.IsForeground(q);
      }
      list' := Record(target, walk, list);
    }

    /** Stamps and records every pixel of `walk`, in order. */
    method Record(target: int, walk: seq<Point>, list: seq<Point>) returns (list': seq<Point>)
      requires labeled != null && storagePoints != null && labeled.Valid() && storagePoints.Valid()
      requires forall q :: q in walk ==> labeled.InWindow(q.x - border, q.y - border)
      modifies labeled.data, storagePoints
      ensures list' == list + walk
      ensures storagePoints.Valid() && storagePoints.Items() == old(storagePoints.Items()) + walk
      ensures forall i :: 0 <= i < labeled.data.Length ==>
        labeled.data[i] == if i in StampCells(labeled, border, walk) then target else old(labeled.data[i])
    {
      ghost var stamped: set<int> := {};
      list' := list;
      var k := 0;
      while k < |walk|
        invariant 0 <= k <= |walk|
        invariant list' == list + walk[..k]
        invariant stamped == StampCells(labeled, border, walk[..k])
        invariant storagePoints.Valid() && storagePoints.Items() == old(storagePoints.Items()) + walk[..k]
        invariant forall i :: 0 <= i < labeled.data.Length ==>
          labeled.data[i] == if i in stamped then target else old(labeled.data[i])
      {
        var p := walk[k];
        var cell := labeled.Index(p.x - border, p.y - border);
        CellInBounds(labeled.width, labeled.height, labeled.startIndex, labeled.stride, labeled.data.Length,
          p.x - border, p.y - border);
        storagePoints.Add(p);
        labeled.data[cell] := target;
        stamped := stamped + {cell};
        list' := list' + [p];
        assert walk[..k + 1] == walk[..k] + [p];
        StampCellsSnoc(labeled, border, walk[..k], p);
        k := k + 1;
      }
      assert walk[..k] == walk;
    }
  }
}
