/**
 * Chang2004: the single-pass connected-component labeller with contour extraction of
 * Chang, Chen and Lu ("A linear-time component-labeling algorithm using contour tracing
 * technique", 2004). One raster scan over a binary image classifies every foreground
 * pixel as the start of a new external contour (Step 1), the start of a new internal
 * contour (Step 2), or an interior pixel (Step 3), and writes region labels into a label
 * image in place.
 *
 * The scan is specified by a ghost log of visits, one per foreground pixel in raster
 * order; the functions below give the region records, point pool and hole lists that a
 * log determines, and the lemmas state what every log the scan can produce satisfies.
 */
module Chang2004 {
  import opened Images
  import opened Storage
  import opened Tracing

  /** A region record: the outer boundary and one point list per hole boundary. */
  datatype Contour = Contour(external: seq<Point>, internal: seq<seq<Point>>)

  /** The three mutually exclusive per-pixel cases, in priority order. */
  datatype Step = NewExternal | NewInternal | Interior

  /** The tracer's start direction for an external contour. */
  const ExternalDirection := 7
  /** The tracer's start direction for an internal contour. */
  const InternalDirection := 3

  /**
   * One foreground pixel of the scan: where it is, the label it had when reached
   * (`seen`), the label read to its left (`left`, read by Steps 2 and 3 only when
   * `seen` is 0), the case taken, the label it was given or traced with (`target`),
   * and the walk traced from it (empty for Step 3).
   */
  datatype Visit = Visit(at: Point, seen: int, left: int, step: Step, target: int, walk: seq<Point>)

  /** How a scan ended: every pixel visited, or stopped where Step 2 found no region to extend. */
  datatype Status = Done | Aborted(at: Point)

  /**
   * The case of foreground pixel `at` that carries label `seen`. The row above is looked
   * at only when there is one, and so is the row below. Above, anything but 1 counts as
   * background; below, only 0 does.
   */
  function Classify(g: Grid, at: Point, seen: int): (step: Step)
    requires g.Valid() && g.InBounds(at.x, at.y)
    // an unlabelled pixel reaches Step 2 or 3 only under a foreground pixel, so never in the first row
    ensures step != NewExternal && seen == 0 ==> 0 < at.y && g.At(at.x, at.y - 1) == 1
    // an interior pixel has a row below it, and the pixel there is not background
    ensures step == Interior ==> at.y < g.height - 1 && g.At(at.x, at.y + 1) != 0
    // a labelled pixel never starts a new region
    ensures seen != 0 ==> step != NewExternal
  {
    if seen == 0 && (at.y <= 0 || g.At(at.x, at.y - 1) != 1) then NewExternal
    else if at.y >= g.height - 1 || g.At(at.x, at.y + 1) == 0 then NewInternal
    else Interior
  }

  ghost function CountExternal(log: seq<Visit>): nat
  {
    if log == [] then 0
    else CountExternal(log[..|log| - 1]) + (if log[|log| - 1].step == NewExternal then 1 else 0)
  }

  /** The labels Step 1 allocated, in discovery order. */
  ghost function ExternalLabels(log: seq<Visit>): seq<int>
  {
    if log == [] then []
    else ExternalLabels(log[..|log| - 1]) + (if log[|log| - 1].step == NewExternal then [log[|log| - 1].target] else [])
  }

  /** The region records a log builds: Step 1 adds a record, Step 2 adds a hole list to its region's. */
  ghost function Records(log: seq<Visit>): seq<Contour>
  {
    if log == [] then []
    else
      var before := Records(log[..|log| - 1]);
      var v := log[|log| - 1];
      match v.step
      case NewExternal => before + [Contour(v.walk, [])]
      case NewInternal =>
        if 1 <= v.target <= |before|
        then before[v.target - 1 := before[v.target - 1].(internal := before[v.target - 1].internal + [v.walk])]
        else before
      case Interior => before
  }

  /** Every traced point, in trace order: the contents of the shared point pool. */
  ghost function Pool(log: seq<Visit>): seq<Point>
  {
    if log == [] then [] else Pool(log[..|log| - 1]) + log[|log| - 1].walk
  }

  /** The hole lists handed out by Step 2, in order. */
  ghost function HoleLists(log: seq<Visit>): seq<seq<Point>>
  {
    if log == [] then []
    else HoleLists(log[..|log| - 1]) + (if log[|log| - 1].step == NewInternal then [log[|log| - 1].walk] else [])
  }

  /** The hole lists traced with label `region`, in order. */
  ghost function HolesOf(log: seq<Visit>, region: int): seq<seq<Point>>
  {
    if log == [] then []
    else
      var v := log[|log| - 1];
      HolesOf(log[..|log| - 1], region) + (if v.step == NewInternal && v.target == region then [v.walk] else [])
  }

  ghost function Positions(log: seq<Visit>): seq<Point>
  {
    if log == [] then [] else Positions(log[..|log| - 1]) + [log[|log| - 1].at]
  }

  /** Every pixel some trace of the log visited. */
  ghost function TracedPixels(log: seq<Visit>): set<Point>
  {
    if log == [] then {}
    else
      var walk := log[|log| - 1].walk;
      TracedPixels(log[..|log| - 1]) + set p | p in walk
  }

  /** The label cells the log's visits wrote: the tracer's stamps and Step 3's copies. */
  ghost function Written(log: seq<Visit>, labeled: ImageSInt32, border: int): set<int>
  {
    if log == [] then {}
    else
      var v := log[|log| - 1];
      Written(log[..|log| - 1], labeled, border) +
        (if v.step == Interior then (if v.seen == 0 then {labeled.Index(v.at.x, v.at.y)} else {})
         else StampCells(labeled, border, v.walk))
  }

  /** Visit `v` is what the scan does at its pixel after the visits `before`. */
  ghost predicate Fits(g: Grid, walker: Walker, before: seq<Visit>, v: Visit)
    requires g.Valid()
  {
    g.IsForeground(v.at) && v.step == Classify(g, v.at, v.seen) &&
    match v.step
    case NewExternal =>
      v.target == CountExternal(before) + 1 &&
      v.walk == walker(g, v.at, ExternalDirection) && WalkFrom(g, v.at, v.walk)
    case NewInternal =>
      v.target == (if v.seen != 0 then v.seen else v.left) && 1 <= v.target <= CountExternal(before) &&
      v.walk == walker(g, v.at, InternalDirection) && WalkFrom(g, v.at, v.walk)
    case Interior =>
      v.target == (if v.seen != 0 then v.seen else v.left) && v.walk == []
  }

  /** Every visit of the log fits the visits before it. */
  ghost predicate Explains(g: Grid, walker: Walker, log: seq<Visit>)
    requires g.Valid()
  {
    log == [] || (Explains(g, walker, log[..|log| - 1]) && Fits(g, walker, log[..|log| - 1], log[|log| - 1]))
  }

  /**
   * The label image a log leaves behind, starting from a label image of zeros. Steps 1
   * and 2 stamp their walk with their target label; Step 3 copies the label on its left
   * into its own cell when that cell is unlabelled.
   */
  ghost function LabelsAfter(labeled: ImageSInt32, border: int, log: seq<Visit>): (labels: seq<int>)
    ensures |labels| == labeled.data.Length
  {
    if log == [] then seq(labeled.data.Length, i => 0)
    else
      var before := LabelsAfter(labeled, border, log[..|log| - 1]);
      var v := log[|log| - 1];
      if v.step != Interior then
        seq(|before|, i requires 0 <= i < |before| =>
          if i in StampCells(labeled, border, v.walk) then v.target else before[i])
      else if v.seen == 0 then
        seq(|before|, i requires 0 <= i < |before| =>
          if i == labeled.Index(v.at.x, v.at.y) then v.target else before[i])
      else before
  }

  /** Label cell `i`; a cell outside the array, which the scan never reads, counts as 0. */
  function LabelAt(labels: seq<int>, i: int): int {
    if 0 <= i < |labels| then labels[i] else 0
  }

  /**
   * The visit the scan makes at foreground pixel `at`, whose label cell is `cell`, when
   * the label image holds `labels` and `count` regions have been found: the label read
   * there, the left label read when that one is 0 (Steps 2 and 3 only), the case
   * `Classify` picks, the label it uses and the walk it traces.
   */
  ghost function ScanVisit(g: Grid, walker: Walker, labels: seq<int>, cell: int, count: int, at: Point): Visit
    requires g.Valid() && g.InBounds(at.x, at.y)
  {
    var seen := LabelAt(labels, cell);
    var left := if seen == 0 then LabelAt(labels, cell - 1) else 0;
    match Classify(g, at, seen)
    case NewExternal => Visit(at, seen, 0, NewExternal, count + 1, walker(g, at, ExternalDirection))
    case NewInternal => Visit(at, seen, left, NewInternal, if seen != 0 then seen else left, walker(g, at, InternalDirection))
    case Interior => Visit(at, seen, left, Interior, if seen != 0 then seen else left, [])
  }

  /** `after` is `before` extended by the visit the scan makes at `at`, reading `labels`. */
  ghost predicate VisitedAt(g: Grid, walker: Walker, labels: seq<int>, cell: int, count: int, at: Point,
                            before: seq<Visit>, after: seq<Visit>)
  {
    g.Valid() && g.InBounds(at.x, at.y) && after == before + [ScanVisit(g, walker, labels, cell, count, at)]
  }

  /** Every visit of the log is the one the scan makes on the labels the visits before it left. */
  ghost predicate LabelsRead(g: Grid, walker: Walker, labeled: ImageSInt32, border: int, log: seq<Visit>)
    requires g.Valid()
  {
    log == [] ||
    (LabelsRead(g, walker, labeled, border, log[..|log| - 1]) &&
     var v := log[|log| - 1];
     var labels := LabelsAfter(labeled, border, log[..|log| - 1]);
     var cell := labeled.Index(v.at.x, v.at.y);
     g.InBounds(v.at.x, v.at.y) && 0 <= cell < |labels| &&
     v == ScanVisit(g, walker, labels, cell, CountExternal(log[..|log| - 1]), v.at))
  }

  // ---------------------------------------------------------------------------
  // Lemmas about logs
  // ---------------------------------------------------------------------------

  lemma Snoc<T>(s: seq<T>, v: T)
    ensures (s + [v])[..|s|] == s
  {
  }

  /** Step 1 alone adds records, one each. */
  lemma {:induction false} RecordsCount(log: seq<Visit>)
    ensures |Records(log)| == CountExternal(log)
  {
    if log != [] {
      RecordsCount(log[..|log| - 1]);
    }
  }

  /** Labels are allocated 1, 2, 3, ... in discovery order, one per Step 1. */
  lemma {:induction false} LabelsInDiscoveryOrder(g: Grid, walker: Walker, log: seq<Visit>)
    requires g.Valid() && Explains(g, walker, log)
    ensures |ExternalLabels(log)| == CountExternal(log)
    ensures forall k :: 0 <= k < |ExternalLabels(log)| ==> ExternalLabels(log)[k] == k + 1
  {
    if log != [] {
      LabelsInDiscoveryOrder(g, walker, log[..|log| - 1]);
    }
  }

  /** The record of label k sits at index k - 1 and holds the external contour traced for k. */
  lemma {:induction false} RecordOfLabel(g: Grid, walker: Walker, log: seq<Visit>, i: int)
    requires g.Valid() && Explains(g, walker, log)
    requires 0 <= i < |log| && log[i].step == NewExternal
    ensures 1 <= log[i].target <= |Records(log)|
    ensures Records(log)[log[i].target - 1].external == log[i].walk
  {
    var before := log[..|log| - 1];
    RecordsCount(before);
    if i < |log| - 1 {
      assert before[i] == log[i];
      RecordOfLabel(g, walker, before, i);
    }
  }

  /**
   * The hole lists of record k are exactly the internal contours traced with label
   * k + 1, in discovery order: Step 2 adds one list to its own region's record and
   * changes no other record.
   */
  lemma {:induction false} HolesOfRecord(g: Grid, walker: Walker, log: seq<Visit>, k: int)
    requires g.Valid() && Explains(g, walker, log)
    requires 0 <= k < |Records(log)|
    ensures Records(log)[k].internal == HolesOf(log, k + 1)
  {
    var before := log[..|log| - 1];
    RecordsCount(log);
    RecordsCount(before);
    if k < |Records(before)| {
      HolesOfRecord(g, walker, before, k);
    } else {
      // the record was added by the last visit, after every hole of label k + 1 so far
      HolesBeyondCount(g, walker, before, k + 1);
    }
  }

  /** No hole has yet been traced for a label Step 1 has not allocated. */
  lemma {:induction false} HolesBeyondCount(g: Grid, walker: Walker, log: seq<Visit>, region: int)
    requires g.Valid() && Explains(g, walker, log) && region > CountExternal(log)
    ensures HolesOf(log, region) == []
  {
    if log != [] {
      HolesBeyondCount(g, walker, log[..|log| - 1], region);
    }
  }

  /** Every point of the pool belongs to a traced walk, and all of them are foreground. */
  lemma {:induction false} TracedAreForeground(g: Grid, walker: Walker, log: seq<Visit>, p: Point)
    requires g.Valid() && Explains(g, walker, log)
    requires p in TracedPixels(log)
    ensures g.IsForeground(p)
  {
    var before := log[..|log| - 1];
    if p !in TracedPixels(before) {
      assert p in log[|log| - 1].walk;
    } else {
      TracedAreForeground(g, walker, before, p);
    }
  }

  /**
   * A label cell the scan wrote either holds a tracer stamp or is the cell of a pixel
   * Step 3 visited; only a stamp can reach the cell of a background pixel.
   */
  lemma {:induction false} BackgroundOnlyStamped(g: Grid, walker: Walker, log: seq<Visit>,
                                                labeled: ImageSInt32, border: int, x: int, y: int)
    requires g.Valid() && Explains(g, walker, log)
    requires labeled.Valid() && labeled.width == g.width && labeled.height == g.height
    requires Registered(g, labeled, border)
    requires g.InBounds(x, y) && g.At(x, y) != 1
    requires labeled.Index(x, y) in Written(log, labeled, border)
    ensures Point(x + border, y + border) in TracedPixels(log)
  {
    var before := log[..|log| - 1];
    var v := log[|log| - 1];
    if labeled.Index(x, y) in Written(before, labeled, border) {
      BackgroundOnlyStamped(g, walker, before, labeled, border, x, y);
    } else if v.step == Interior {
      assert labeled.Index(x, y) == labeled.Index(v.at.x, v.at.y);
      CellInjective(labeled.width, labeled.stride, x, y, v.at.x, v.at.y);
      assert false;
    } else {
      var p :| p in v.walk && labeled.Index(p.x - border, p.y - border) == labeled.Index(x, y);
      assert g.IsForeground(p);
      CellInjective(labeled.width, labeled.stride, x, y, p.x - border, p.y - border);
    }
  }

  /** The pixels above and below (x, y) sit one stride before and after it. */
  lemma NeighbourCells(img: ImageUInt8, x: int, y: int)
    requires img.Valid() && img.InWindow(x, y)
    ensures y > 0 ==>
      (img.Index(x, y) - img.stride == img.Index(x, y - 1) && 0 <= img.Index(x, y - 1) < img.data.Length)
    ensures y < img.height - 1 ==>
      (img.Index(x, y) + img.stride == img.Index(x, y + 1) && 0 <= img.Index(x, y + 1) < img.data.Length)
  {
    if y > 0 {
      assert (y - 1) * img.stride == y * img.stride - img.stride;
      CellInBounds(img.width, img.height, img.startIndex, img.stride, img.data.Length, x, y - 1);
    }
    if y < img.height - 1 {
      assert (y + 1) * img.stride == y * img.stride + img.stride;
      CellInBounds(img.width, img.height, img.startIndex, img.stride, img.data.Length, x, y + 1);
    }
  }

  /** Below the first row the cell before (x, y) is in the array. */
  lemma LeftCellInBounds(img: ImageSInt32, x: int, y: int)
    requires img.Valid() && img.InWindow(x, y) && y > 0
    ensures 0 < img.Index(x, y) < img.data.Length
  {
    CellInBounds(img.width, img.height, img.startIndex, img.stride, img.data.Length, x, y);
    MulMonotone(1, y, img.stride);
  }

  /**
   * Pixel (x, y) of the binary image and its neighbours above and below: their cells
   * are in the array, one stride apart, and hold the grid's pixels.
   */
  lemma PixelCell(img: ImageUInt8, x: int, y: int)
    requires img.Valid() && img.InWindow(x, y)
    ensures 0 <= img.Index(x, y) < img.data.Length && img.ToGrid().At(x, y) == img.data[img.Index(x, y)]
    ensures y > 0 ==>
      (&& 0 <= img.Index(x, y) - img.stride < img.data.Length
       && img.ToGrid().At(x, y - 1) == img.data[img.Index(x, y) - img.stride])
    ensures y < img.height - 1 ==>
      (&& 0 <= img.Index(x, y) + img.stride < img.data.Length
       && img.ToGrid().At(x, y + 1) == img.data[img.Index(x, y) + img.stride])
  {
    CellInBounds(img.width, img.height, img.startIndex, img.stride, img.data.Length, x, y);
    NeighbourCells(img, x, y);
  }

  /** The scan moves one pixel right: the pixel joins the list if it is foreground. */
  lemma ScanAdvance(g: Grid, y: int, x: int)
    requires g.Valid() && 0 <= y < g.height && 0 <= x < g.width
    ensures RowsForeground(g, y) + RowForeground(g, y, x) + (if g.At(x, y) == 1 then [Point(x, y)] else [])
         == RowsForeground(g, y) + RowForeground(g, y, x + 1)
  {
  }

  /** The scan moves to the next row. */
  lemma ScanNextRow(g: Grid, y: int)
    requires g.Valid() && 0 <= y < g.height
    ensures RowsForeground(g, y) + RowForeground(g, y, 0) == RowsForeground(g, y)
    ensures RowsForeground(g, y) + RowForeground(g, y, g.width) == RowsForeground(g, y + 1)
  {
  }

  /** Every label is 0 or one of the `count` allocated labels, and a non-zero label sits in a cell of `written`. */
  ghost predicate LabelsAccounted(labels: seq<int>, count: nat, written: set<int>) {
    forall i :: 0 <= i < |labels| ==> 0 <= labels[i] <= count && (labels[i] != 0 ==> i in written)
  }

  /**
   * The scan's books agree with its log: every visit fits and read the labels the visits
   * before it left, and the records, the point pool, the hole lists and the label image
   * are the ones the log builds.
   */
  ghost predicate Consistent(g: Grid, walker: Walker, labeled: ImageSInt32, border: int, log: seq<Visit>,
                             records: seq<Contour>, pool: seq<Point>, holes: seq<seq<Point>>, labels: seq<int>)
    requires g.Valid()
  {
    Explains(g, walker, log) && LabelsRead(g, walker, labeled, border, log) &&
    records == Records(log) && pool == Pool(log) && holes == HoleLists(log) &&
    labels == LabelsAfter(labeled, border, log)
  }

  /**
   * `Consistent` behind `depth` levels of recursion. The verifier unfolds a recursive
   * predicate one level where it meets it, so the scan's driver methods, which only pass
   * the books on from call to call, see `Sealed(1, ...)` as one fact; `Unseal` opens it
   * where a step needs the account itself.
   */
  ghost predicate Sealed(depth: nat, g: Grid, walker: Walker, labeled: ImageSInt32, border: int, log: seq<Visit>,
                         records: seq<Contour>, pool: seq<Point>, holes: seq<seq<Point>>, labels: seq<int>)
    requires g.Valid()
  {
    if depth == 0 then Consistent(g, walker, labeled, border, log, records, pool, holes, labels)
    else Sealed(depth - 1, g, walker, labeled, border, log, records, pool, holes, labels)
  }

  lemma Unseal(g: Grid, walker: Walker, labeled: ImageSInt32, border: int, log: seq<Visit>,
               records: seq<Contour>, pool: seq<Point>, holes: seq<seq<Point>>, labels: seq<int>)
    requires g.Valid()
    ensures Sealed(1, g, walker, labeled, border, log, records, pool, holes, labels) <==>
            Consistent(g, walker, labeled, border, log, records, pool, holes, labels)
  {
    assert Sealed(0, g, walker, labeled, border, log, records, pool, holes, labels) <==>
           Consistent(g, walker, labeled, border, log, records, pool, holes, labels);
  }

  /**
   * Every label a log leaves is 0 or a label Step 1 allocated, and a non-zero label sits
   * in a cell some visit of the log wrote.
   */
  lemma {:induction false} LabelsAllocated(g: Grid, walker: Walker, labeled: ImageSInt32, border: int, log: seq<Visit>)
    requires g.Valid() && Explains(g, walker, log) && LabelsRead(g, walker, labeled, border, log)
    ensures LabelsAccounted(LabelsAfter(labeled, border, log), CountExternal(log), Written(log, labeled, border))
  {
    if log != [] {
      var before := log[..|log| - 1];
      var v := log[|log| - 1];
      LabelsAllocated(g, walker, labeled, border, before);
      if v.step == Interior && v.seen == 0 {
        // Step 3 copies the label on its left, which is accounted for already
        assert v.target == LabelAt(LabelsAfter(labeled, border, before), labeled.Index(v.at.x, v.at.y) - 1);
      }
    }
  }

  lemma {:induction false} PositionsLength(log: seq<Visit>)
    ensures |Positions(log)| == |log|
  {
    if log != [] {
      PositionsLength(log[..|log| - 1]);
    }
  }

  /**
   * The scan is determined by the pixels it visits: two logs whose every visit is the one
   * the scan makes on the labels the visits before it left, and that visit the same
   * pixels in the same order, are the same log.
   */
  lemma {:induction false} ScanDetermined(g: Grid, walker: Walker, labeled: ImageSInt32, border: int,
                                          a: seq<Visit>, b: seq<Visit>)
    requires g.Valid() && LabelsRead(g, walker, labeled, border, a) && LabelsRead(g, walker, labeled, border, b)
    requires Positions(a) == Positions(b)
    ensures a == b
  {
    PositionsLength(a);
    PositionsLength(b);
    if a != [] {
      var a', b' := a[..|a| - 1], b[..|b| - 1];
      assert Positions(a') == Positions(a)[..|a| - 1] == Positions(b)[..|b| - 1] == Positions(b');
      ScanDetermined(g, walker, labeled, border, a', b');
      assert a[|a| - 1].at == Positions(a)[|a| - 1] == Positions(b)[|b| - 1] == b[|b| - 1].at;
      assert a == a' + [a[|a| - 1]] && b == b' + [b[|b| - 1]];
    }
  }

  lemma PositionsSnoc(log: seq<Visit>, v: Visit)
    ensures Positions(log + [v]) == Positions(log) + [v.at]
  {
    Snoc(log, v);
  }

  /** The visit `v` is the one the scan makes at its pixel on the labels `labels`, after `count` regions. */
  ghost predicate ReadFrom(g: Grid, walker: Walker, labeled: ImageSInt32, labels: seq<int>, count: int, v: Visit)
    requires g.Valid()
  {
    g.InBounds(v.at.x, v.at.y) && 0 <= labeled.Index(v.at.x, v.at.y) < |labels| &&
    v == ScanVisit(g, walker, labels, labeled.Index(v.at.x, v.at.y), count, v.at)
  }

  /** Step 1 keeps the books: one new record, the walk added to the pool, its cells stamped with the new label. */
  lemma ExternalStep(g: Grid, walker: Walker, labeled: ImageSInt32, border: int, log: seq<Visit>,
                     records: seq<Contour>, pool: seq<Point>, holes: seq<seq<Point>>, labels: seq<int>,
                     v: Visit, records': seq<Contour>, pool': seq<Point>, labels': seq<int>)
    requires g.Valid() && WalkerSound(walker) && Sealed(1, g, walker, labeled, border, log, records, pool, holes, labels)
    requires v.step == NewExternal && g.IsForeground(v.at) && ReadFrom(g, walker, labeled, labels, |records|, v)
    requires records' == records + [Contour(v.walk, [])] && pool' == pool + v.walk
    requires |labels'| == |labels|
    requires forall i :: 0 <= i < |labels| ==>
      labels'[i] == if i in StampCells(labeled, border, v.walk) then v.target else labels[i]
    ensures Sealed(1, g, walker, labeled, border, log + [v], records', pool', holes, labels')
  {
    Unseal(g, walker, labeled, border, log, records, pool, holes, labels);
    Unseal(g, walker, labeled, border, log + [v], records', pool', holes, labels');
    SoundWalk(walker, g, v.at, ExternalDirection);
    Snoc(log, v);
    RecordsCount(log);
  }

  /** Step 2 keeps the books: the hole joins its region's record and the hole lists, its cells take the region's label. */
  lemma InternalStep(g: Grid, walker: Walker, labeled: ImageSInt32, border: int, log: seq<Visit>,
                     records: seq<Contour>, pool: seq<Point>, holes: seq<seq<Point>>, labels: seq<int>,
                     v: Visit, records': seq<Contour>, pool': seq<Point>, holes': seq<seq<Point>>, labels': seq<int>)
    requires g.Valid() && WalkerSound(walker) && Sealed(1, g, walker, labeled, border, log, records, pool, holes, labels)
    requires v.step == NewInternal && g.IsForeground(v.at) && ReadFrom(g, walker, labeled, labels, |records|, v)
    requires 1 <= v.target <= |records|
    requires records' == records[v.target - 1 := records[v.target - 1].(internal := records[v.target - 1].internal + [v.walk])]
    requires pool' == pool + v.walk && holes' == holes + [v.walk]
    requires |labels'| == |labels|
    requires forall i :: 0 <= i < |labels| ==>
      labels'[i] == if i in StampCells(labeled, border, v.walk) then v.target else labels[i]
    ensures Sealed(1, g, walker, labeled, border, log + [v], records', pool', holes', labels')
  {
    Unseal(g, walker, labeled, border, log, records, pool, holes, labels);
    Unseal(g, walker, labeled, border, log + [v], records', pool', holes', labels');
    SoundWalk(walker, g, v.at, InternalDirection);
    Snoc(log, v);
    RecordsCount(log);
  }

  /** Step 3 keeps the books: at most its own cell changes, to the label on its left. */
  lemma InteriorStep(g: Grid, walker: Walker, labeled: ImageSInt32, border: int, log: seq<Visit>,
                     records: seq<Contour>, pool: seq<Point>, holes: seq<seq<Point>>, labels: seq<int>,
                     v: Visit, labels': seq<int>)
    requires g.Valid() && Sealed(1, g, walker, labeled, border, log, records, pool, holes, labels)
    requires v.step == Interior && g.IsForeground(v.at) && ReadFrom(g, walker, labeled, labels, |records|, v)
    requires |labels'| == |labels|
    requires forall i :: 0 <= i < |labels| ==>
      labels'[i] == if i == labeled.Index(v.at.x, v.at.y) then v.target else labels[i]
    ensures Sealed(1, g, walker, labeled, border, log + [v], records, pool, holes, labels')
  {
    Unseal(g, walker, labeled, border, log, records, pool, holes, labels);
    Unseal(g, walker, labeled, border, log + [v], records, pool, holes, labels');
    Snoc(log, v);
    RecordsCount(log);
    assert pool + [] == pool;
  }

  /** The books only hold labels in 0..the number of records. */
  lemma BooksLabels(g: Grid, walker: Walker, labeled: ImageSInt32, border: int, log: seq<Visit>,
                    records: seq<Contour>, pool: seq<Point>, holes: seq<seq<Point>>, labels: seq<int>)
    requires g.Valid() && Sealed(1, g, walker, labeled, border, log, records, pool, holes, labels)
    ensures forall i :: 0 <= i < |labels| ==> 0 <= labels[i] <= |records|
  {
    Unseal(g, walker, labeled, border, log, records, pool, holes, labels);
    LabelsAllocated(g, walker, labeled, border, log);
    RecordsCount(log);
  }

  /** The visits of `trail` are the foreground pixels before (x, y), in raster order. */
  ghost predicate ScannedTo(g: Grid, trail: seq<Visit>, x: int, y: int)
    requires g.Valid() && 0 <= y < g.height && 0 <= x <= g.width
  {
    Positions(trail) == RowsForeground(g, y) + RowForeground(g, y, x)
  }

  /**
   * The scan cannot go on at (x, y): the pixel is foreground, unlabelled and in the
   * Step 2 case, and so its region label is read from its left neighbour, which is
   * unlabelled as well.
   */
  ghost predicate StuckAt(g: Grid, labeled: ImageSInt32, x: int, y: int)
    reads labeled, labeled.data
    requires g.Valid() && labeled.Valid()
  {
    && g.IsForeground(Point(x, y)) && Classify(g, Point(x, y), 0) == NewInternal
    && labeled.InWindow(x, y) && labeled.Get(x, y) == 0
    && 0 < labeled.Index(x, y) < labeled.data.Length && labeled.data[labeled.Index(x, y) - 1] == 0
  }

  // ---------------------------------------------------------------------------
  // The labeller
  // ---------------------------------------------------------------------------

  class LinearContourLabelChang2004 {
    /** Traces edge pixels. */
    const tracer: ContourTracer
    // recycled storage
    const storagePoints: FastQueue<Point>
    const storageLists: FastQueue<seq<Point>>
    const contours: FastQueue<Contour>
    // the scan position
    var x: int
    var y: int
    var indexIn: int
    var indexOut: int
    /** The visits of the current scan. */
    ghost var log: seq<Visit>

    ghost predicate Valid()
      reads storagePoints, storageLists, contours
    {
      storagePoints.Valid() && storageLists.Valid() && contours.Valid()
    }

    /** `walker` and `border` stand for the tracer's unseen step rule and coordinate convention. */
    constructor (walker: Walker, border: int)
      ensures Valid() && fresh(tracer) && fresh(storagePoints) && fresh(storageLists) && fresh(contours)
      ensures tracer.walker == walker && tracer.border == border
      ensures contours.Items() == [] && storagePoints.Items() == [] && storageLists.Items() == []
    {
      tracer := new ContourTracer(walker, border);
      storagePoints := new FastQueue();
      storageLists := new FastQueue();
      contours := new FastQueue();
      log := [];
    }

    /** The inputs are wired to the tracer: a fact no step of the scan changes. */
    ghost predicate Wired(binary: ImageUInt8, labeled: ImageSInt32)
      reads tracer, binary, binary.data, labeled
    {
      binary.Valid() && labeled.Valid() &&
      labeled.width == binary.width && labeled.height == binary.height &&
      tracer.binary == binary && tracer.labeled == labeled && tracer.storagePoints == storagePoints &&
      tracer.Ready() && tracer.grid == binary.ToGrid() && Registered(tracer.grid, labeled, tracer.border)
    }

    /** The books agree with the visits `trail`. */
    ghost predicate Books(labeled: ImageSInt32, trail: seq<Visit>)
      reads tracer, storagePoints, storageLists, contours, labeled.data
    {
      Valid() && tracer.grid.Valid() &&
      Sealed(1, tracer.grid, tracer.walker, labeled, tracer.border, trail,
        contours.Items(), storagePoints.Items(), storageLists.Items(), labeled.data[..])
    }

    /** The inputs are wired and the books agree with the visits of the last scan. */
    ghost predicate Tracking(binary: ImageUInt8, labeled: ImageSInt32)
      reads this, tracer, storagePoints, storageLists, contours, binary, binary.data, labeled, labeled.data
    {
      Wired(binary, labeled) && Books(labeled, log)
    }

    /**
     * Labels `binary` into `labeled` and rebuilds the region records. Every call
     * starts by resetting the recycled storage, so the records afterwards are exactly
     * the ones this scan built.
     */
    method Process(binary: ImageUInt8, labeled: ImageSInt32) returns (status: Status)
      requires Valid() && binary.Valid() && labeled.Valid()
      requires labeled.width == binary.width && labeled.height == binary.height
      requires forall i :: 0 <= i < labeled.data.Length ==> labeled.data[i] == 0
      requires WalkerSound(tracer.walker)
      requires Registered(binary.ToGrid(), labeled, tracer.border)
      modifies this, tracer, storagePoints, storageLists, contours, labeled.data
      ensures Tracking(binary, labeled)
      // the records, the point pool, the hole lists and every cell of the label image are the ones the visits build
      ensures Consistent(binary.ToGrid(), tracer.walker, labeled, tracer.border, log,
        contours.Items(), storagePoints.Items(), storageLists.Items(), labeled.data[..])
      ensures status == Done ==> Positions(log) == RowsForeground(binary.ToGrid(), binary.height)
      ensures status.Aborted? ==>
        var p := status.at;
        && binary.InWindow(p.x, p.y)
        && ScannedTo(binary.ToGrid(), log, p.x, p.y) && StuckAt(binary.ToGrid(), labeled, p.x, p.y)
    {
      // initialize data structures
      storagePoints.Reset();
      storageLists.Reset();
      contours.Reset();
      tracer.SetInputs(binary, labeled, storagePoints);
      Unseal(tracer.grid, tracer.walker, labeled, tracer.border, [], [], [], [], labeled.data[..]);
      ghost var trail;
      status, trail := ScanImage(binary, labeled);
      log := trail;
      Unseal(tracer.grid, tracer.walker, labeled, tracer.border, log,
        contours.Items(), storagePoints.Items(), storageLists.Items(), labeled.data[..]);
    }

    /** The raster scan of `Process`, row by row from the top, on freshly reset storage. */
    method ScanImage(binary: ImageUInt8, labeled: ImageSInt32) returns (status: Status, ghost trail: seq<Visit>)
      requires Wired(binary, labeled) && Books(labeled, []) && WalkerSound(tracer.walker)
      modifies this, storagePoints, storageLists, contours, labeled.data
      ensures Books(labeled, trail)
      ensures status == Done ==> Positions(trail) == RowsForeground(tracer.grid, binary.height)
      ensures status.Aborted? ==>
        var p := status.at;
        && binary.InWindow(p.x, p.y)
        && ScannedTo(tracer.grid, trail, p.x, p.y) && StuckAt(tracer.grid, labeled, p.x, p.y)
    {
      ghost var g := tracer.grid;
      trail := [];
      var row := 0;
      while row < binary.height
        invariant 0 <= row <= binary.height
        invariant Books(labeled, trail)
        invariant Positions(trail) == RowsForeground(g, row)
        modifies this, storagePoints, storageLists, contours, labeled.data
      {
        var ok;
        ok, trail := ScanRow(binary, labeled, trail, row);
        if !ok {
          return Aborted(Point(x, y)), trail;
        }
        row := row + 1;
      }
      status := Done;
    }

    /** Row `row` of the scan, left to right; `ok` is false where the row's scan stopped. */
    method ScanRow(binary: ImageUInt8, labeled: ImageSInt32, ghost trail: seq<Visit>, row: int)
      returns (ok: bool, ghost trail': seq<Visit>)
      requires Wired(binary, labeled)
      requires Books(labeled, trail) && WalkerSound(tracer.walker)
      requires 0 <= row < binary.height && Positions(trail) == RowsForeground(tracer.grid, row)
      modifies this, storagePoints, storageLists, contours, labeled.data
      ensures y == row && Books(labeled, trail')
      ensures ok ==> Positions(trail') == RowsForeground(tracer.grid, y + 1)
      ensures !ok ==>
        binary.InWindow(x, y) && ScannedTo(tracer.grid, trail', x, y) && StuckAt(tracer.grid, labeled, x, y)
    {
      ghost var g := tracer.grid;
      trail' := trail;
      y := row;
      indexIn := binary.startIndex + y * binary.stride;
      indexOut := labeled.startIndex + y * labeled.stride;
      x := 0;
      ScanNextRow(g, y);
      while x < binary.width
        invariant y == row && 0 <= x <= binary.width
        invariant indexIn == binary.Index(x, y) && indexOut == labeled.Index(x, y)
        invariant Books(labeled, trail')
        invariant ScannedTo(g, trail', x, y)
        modifies this, storagePoints, storageLists, contours, labeled.data
      {
        ok, trail' := ScanStep(binary, labeled, trail');
        if !ok {
          return;
        }
      }
      ok := true;
    }

    /** The body of the inner loop: the pixel at (x, y), then the next column where the scan goes on. */
    method ScanStep(binary: ImageUInt8, labeled: ImageSInt32, ghost trail: seq<Visit>)
      returns (ok: bool, ghost trail': seq<Visit>)
      requires Wired(binary, labeled)
      requires Books(labeled, trail) && WalkerSound(tracer.walker)
      requires binary.InWindow(x, y) && indexIn == binary.Index(x, y) && indexOut == labeled.Index(x, y)
      requires ScannedTo(tracer.grid, trail, x, y)
      modifies this, storagePoints, storageLists, contours, labeled.data
      ensures Books(labeled, trail') && y == old(y)
      ensures ok ==> x == old(x) + 1 && indexIn == old(indexIn) + 1 && indexOut == old(indexOut) + 1
      ensures ok ==> ScannedTo(tracer.grid, trail', x, y)
      ensures !ok ==> x == old(x) && trail' == trail && StuckAt(tracer.grid, labeled, x, y)
    {
      ok, trail' := ScanPixel(binary, labeled, trail);
      if !ok {
        return;
      }
      x, indexIn, indexOut := x + 1, indexIn + 1, indexOut + 1;
    }

    /**
     * One step of the scan at (x, y). A pixel that is not 1
     * is skipped and changes nothing. A foreground pixel adds to `trail` the visit the
     * scan makes on the labels it reads there. `ok` is false only where Step 2 found no
     * region to extend: the pixel was unlabelled and so was its left neighbour.
     */
    method ScanPixel(binary: ImageUInt8, labeled: ImageSInt32, ghost trail: seq<Visit>)
      returns (ok: bool, ghost trail': seq<Visit>)
      requires Wired(binary, labeled)
      requires Books(labeled, trail) && WalkerSound(tracer.walker)
      requires binary.InWindow(x, y) && indexIn == binary.Index(x, y) && indexOut == labeled.Index(x, y)
      requires ScannedTo(tracer.grid, trail, x, y)
      modifies storagePoints, storageLists, contours, labeled.data
      ensures Books(labeled, trail')
      ensures ok ==> ScannedTo(tracer.grid, trail', x + 1, y)
      ensures !ok ==> trail' == trail && StuckAt(tracer.grid, labeled, x, y)
      ensures !tracer.grid.IsForeground(Point(x, y)) ==>
        ok && trail' == trail && unchanged(storagePoints, storageLists, contours, labeled.data)
      ensures tracer.grid.IsForeground(Point(x, y)) && ok ==>
        VisitedAt(tracer.grid, tracer.walker, old(labeled.data[..]), indexOut, |old(contours.Items())|,
                  Point(x, y), trail, trail')
    {
      ok, trail' := true, trail;
      ScanAdvance(tracer.grid, y, x);
      PixelCell(binary, x, y);
      var bit := binary.data[indexIn];
      // pixels that are not 1 are skipped
      if bit == 1 {
        ok, trail' := VisitPixel(binary, labeled, trail);
      }
    }

    /** A foreground pixel: Step 1, 2 or 3, whichever applies first to the label read there. */
    method VisitPixel(binary: ImageUInt8, labeled: ImageSInt32, ghost trail: seq<Visit>)
      returns (ok: bool, ghost trail': seq<Visit>)
      requires Wired(binary, labeled)
      requires Books(labeled, trail) && WalkerSound(tracer.walker)
      requires binary.InWindow(x, y) && indexIn == binary.Index(x, y) && indexOut == labeled.Index(x, y)
      requires tracer.grid.IsForeground(Point(x, y))
      modifies storagePoints, storageLists, contours, labeled.data
      ensures Books(labeled, trail')
      ensures ok ==> Positions(trail') == Positions(trail) + [Point(x, y)]
      ensures ok ==> VisitedAt(tracer.grid, tracer.walker, old(labeled.data[..]), indexOut, |old(contours.Items())|,
                               Point(x, y), trail, trail')
      ensures !ok ==> trail' == trail && StuckAt(tracer.grid, labeled, x, y)
      ensures !ok ==> unchanged(storagePoints, storageLists, contours, labeled.data)
    {
      PixelCell(binary, x, y);
      CellInBounds(labeled.width, labeled.height, labeled.startIndex, labeled.stride, labeled.data.Length, x, y);
      var seenLabel := labeled.data[indexOut];
      if y > 0 {
        LeftCellInBounds(labeled, x, y);
      }
      if seenLabel == 0 && (y <= 0 || binary.data[indexIn - binary.stride] != 1) {
        ok := true;
        trail' := VisitExternal(binary, labeled, trail);
      } else if y >= binary.height - 1 || binary.data[indexIn + binary.stride] == 0 {
        ok, trail' := VisitInternal(binary, labeled, trail, seenLabel);
      } else {
        ok := true;
        trail' := VisitInterior(binary, labeled, trail, seenLabel);
      }
    }

    /** Step 1 at (x, y), and its visit. */
    method VisitExternal(binary: ImageUInt8, labeled: ImageSInt32, ghost trail: seq<Visit>)
      returns (ghost trail': seq<Visit>)
      requires Wired(binary, labeled)
      requires Books(labeled, trail) && WalkerSound(tracer.walker)
      requires binary.InWindow(x, y) && tracer.grid.IsForeground(Point(x, y))
      requires indexOut == labeled.Index(x, y) && 0 <= indexOut < labeled.data.Length
      requires Classify(tracer.grid, Point(x, y), 0) == NewExternal && labeled.data[indexOut] == 0
      modifies storagePoints, contours, labeled.data
      ensures Books(labeled, trail') && Positions(trail') == Positions(trail) + [Point(x, y)]
      ensures VisitedAt(tracer.grid, tracer.walker, old(labeled.data[..]), indexOut, |old(contours.Items())|,
                        Point(x, y), trail, trail')
    {
      ghost var g := tracer.grid;
      ghost var walker := tracer.walker;
      ghost var records, pool, holes, labels :=
        contours.Items(), storagePoints.Items(), storageLists.Items(), labeled.data[..];
      SoundWalk(walker, g, Point(x, y), ExternalDirection);
      HandleStep1();
      ghost var v := Visit(Point(x, y), 0, 0, NewExternal, |records| + 1, walker(g, Point(x, y), ExternalDirection));
      assert v == ScanVisit(g, walker, labels, indexOut, |records|, Point(x, y));
      ExternalStep(g, walker, labeled, tracer.border, trail, records, pool, holes, labels, v,
        contours.Items(), storagePoints.Items(), labeled.data[..]);
      PositionsSnoc(trail, v);
      trail' := trail + [v];
    }

    /** Step 2 at (x, y), and its visit where the region it extends exists. */
    method VisitInternal(binary: ImageUInt8, labeled: ImageSInt32, ghost trail: seq<Visit>, seenLabel: int)
      returns (ok: bool, ghost trail': seq<Visit>)
      requires Wired(binary, labeled)
      requires Books(labeled, trail) && WalkerSound(tracer.walker)
      requires binary.InWindow(x, y) && tracer.grid.IsForeground(Point(x, y))
      requires indexOut == labeled.Index(x, y) && 0 <= indexOut < labeled.data.Length
      requires seenLabel == labeled.data[indexOut] && (seenLabel == 0 ==> 0 < indexOut)
      requires Classify(tracer.grid, Point(x, y), seenLabel) == NewInternal
      modifies storagePoints, storageLists, contours, labeled.data
      ensures Books(labeled, trail')
      ensures ok ==> Positions(trail') == Positions(trail) + [Point(x, y)]
      ensures ok ==> VisitedAt(tracer.grid, tracer.walker, old(labeled.data[..]), indexOut, |old(contours.Items())|,
                               Point(x, y), trail, trail')
      ensures !ok ==> trail' == trail && StuckAt(tracer.grid, labeled, x, y)
      ensures !ok ==> unchanged(storagePoints, storageLists, contours, labeled.data)
    {
      ghost var g := tracer.grid;
      ghost var walker := tracer.walker;
      ghost var records, pool, holes, labels :=
        contours.Items(), storagePoints.Items(), storageLists.Items(), labeled.data[..];
      trail' := trail;
      SoundWalk(walker, g, Point(x, y), InternalDirection);
      ok := HandleStep2(labeled, seenLabel);
      if !ok {
        // every label is 0 or allocated, so the missing region can only be label 0
        BooksLabels(g, walker, labeled, tracer.border, trail, records, pool, holes, labels);
        return;
      }
      ghost var region := if seenLabel != 0 then seenLabel else labels[indexOut - 1];
      ghost var v := Visit(Point(x, y), seenLabel, if seenLabel != 0 then 0 else region, NewInternal, region,
        walker(g, Point(x, y), InternalDirection));
      assert v == ScanVisit(g, walker, labels, indexOut, |records|, Point(x, y));
      InternalStep(g, walker, labeled, tracer.border, trail, records, pool, holes, labels, v,
        contours.Items(), storagePoints.Items(), storageLists.Items(), labeled.data[..]);
      PositionsSnoc(trail, v);
      trail' := trail + [v];
    }

    /** Step 3 at (x, y), and its visit. */
    method VisitInterior(binary: ImageUInt8, labeled: ImageSInt32, ghost trail: seq<Visit>, seenLabel: int)
      returns (ghost trail': seq<Visit>)
      requires Wired(binary, labeled)
      requires Books(labeled, trail)
      requires binary.InWindow(x, y) && tracer.grid.IsForeground(Point(x, y))
      requires indexOut == labeled.Index(x, y) && 0 <= indexOut < labeled.data.Length
      requires seenLabel == labeled.data[indexOut] && (seenLabel == 0 ==> 0 < indexOut)
      requires Classify(tracer.grid, Point(x, y), seenLabel) == Interior
      modifies labeled.data
      ensures Books(labeled, trail') && Positions(trail') == Positions(trail) + [Point(x, y)]
      ensures VisitedAt(tracer.grid, tracer.walker, old(labeled.data[..]), indexOut, |contours.Items()|,
                        Point(x, y), trail, trail')
    {
      ghost var labels := labeled.data[..];
      HandleStep3(labeled);
      ghost var left := if seenLabel == 0 then labels[indexOut - 1] else 0;
      ghost var v := Visit(Point(x, y), seenLabel, left, Interior, if seenLabel != 0 then seenLabel else left, []);
      assert v == ScanVisit(tracer.grid, tracer.walker, labels, indexOut, |contours.Items()|, Point(x, y));
      InteriorStep(tracer.grid, tracer.walker, labeled, tracer.border, trail, contours.Items(), storagePoints.Items(),
        storageLists.Items(), labels, v, labeled.data[..]);
      PositionsSnoc(trail, v);
      trail' := trail + [v];
    }

    /**
     * Step 1: an unlabelled pixel with background above starts the external contour of
     * a newly found region. The region takes the next label, `contours.size()` after
     * the record is added, and its record is a fresh one holding that contour and no holes.
     */
    method HandleStep1()
      requires tracer.Ready() && tracer.storagePoints == storagePoints && Valid()
      requires tracer.grid == tracer.binary.ToGrid() && tracer.grid.IsForeground(Point(x, y))
      requires Registered(tracer.grid, tracer.labeled, tracer.border)
      requires WalkFrom(tracer.grid, Point(x, y), tracer.walker(tracer.grid, Point(x, y), ExternalDirection))
      modifies contours, storagePoints, tracer.labeled.data
      ensures Valid()
      ensures var walk := tracer.walker(tracer.grid, Point(x, y), ExternalDirection);
        && contours.Items() == old(contours.Items()) + [Contour(walk, [])]
        && storagePoints.Items() == old(storagePoints.Items()) + walk
        && forall i :: 0 <= i < tracer.labeled.data.Length ==>
             tracer.labeled.data[i] == if i in StampCells(tracer.labeled, tracer.border, walk)
               then |contours.Items()| else old(tracer.labeled.data[i])
    {
      var c := contours.Grow(Contour([], []));
      // the recycled record is emptied before it is reused
      c := Contour([], []);
      var external := tracer.Trace(contours.size, x, y, ExternalDirection, c.external);
      contours.Set(contours.size - 1, c.(external := external));
    }

    /**
     * Step 2: a pixel with background below starts an internal contour. Its region is
     * `seenLabel`, the pixel's own label, or, when that is 0, the label to its left; the
     * hole list is added to that region's record and no other record changes. `ok` is
     * false where that record does not exist (`contours.get` refuses the index), and
     * then nothing has changed.
     */
    method HandleStep2(labeled: ImageSInt32, seenLabel: int) returns (ok: bool)
      requires tracer.Ready() && tracer.labeled == labeled && tracer.storagePoints == storagePoints && Valid()
      requires tracer.grid == tracer.binary.ToGrid()
      requires 0 <= indexOut < labeled.data.Length && (seenLabel == 0 ==> 0 < indexOut)
      requires tracer.grid.IsForeground(Point(x, y)) && Registered(tracer.grid, labeled, tracer.border)
      requires WalkFrom(tracer.grid, Point(x, y), tracer.walker(tracer.grid, Point(x, y), InternalDirection))
      modifies contours, storagePoints, storageLists, labeled.data
      ensures Valid()
      ensures var region := if seenLabel != 0 then seenLabel else old(labeled.data[indexOut - 1]);
        var hole := tracer.walker(tracer.grid, Point(x, y), InternalDirection);
        && (ok <==> 1 <= region <= |old(contours.Items())|)
        && (ok ==>
          && contours.Items() == old(contours.Items())[region - 1 :=
               old(contours.Items())[region - 1].(internal := old(contours.Items())[region - 1].internal + [hole])]
          && storagePoints.Items() == old(storagePoints.Items()) + hole
          && storageLists.Items() == old(storageLists.Items()) + [hole]
          && forall i :: 0 <= i < labeled.data.Length ==>
               labeled.data[i] == if i in StampCells(labeled, tracer.border, hole) then region else old(labeled.data[i]))
      ensures !ok ==> unchanged(contours, storagePoints, storageLists, labeled.data)
    {
      var region := seenLabel;
      if region == 0 {
        region := labeled.data[indexOut - 1];
      }
      var c := contours.Get(region - 1);
      if c.None? {
        return false;
      }
      var inner := storageLists.Grow([]);
      inner := [];
      inner := tracer.Trace(region, x, y, InternalDirection, inner);
      storageLists.Set(storageLists.size - 1, inner);
      contours.Set(region - 1, c.value.(internal := c.value.internal + [inner]));
      ok := true;
    }

    /** Step 3: an interior pixel takes the label to its left unless it already has one. */
    method HandleStep3(labeled: ImageSInt32)
      requires 0 <= indexOut < labeled.data.Length && (labeled.data[indexOut] == 0 ==> 0 < indexOut)
      modifies labeled.data
      ensures labeled.data[indexOut] ==
        if old(labeled.data[indexOut]) == 0 then old(labeled.data[indexOut - 1]) else old(labeled.data[indexOut])
      ensures forall i :: 0 <= i < labeled.data.Length && i != indexOut ==> labeled.data[i] == old(labeled.data[i])
    {
      if labeled.data[indexOut] == 0 {
        labeled.data[indexOut] := labeled.data[indexOut - 1];
      }
    }

    /** The region records of the last scan: the record of label k is at index k - 1. */
    function GetContours(): (r: seq<Contour>)
      requires Valid() && tracer.grid.Valid() && Explains(tracer.grid, tracer.walker, log)
      requires contours.Items() == Records(log)
      reads this, tracer, storagePoints, storageLists, contours
      ensures |r| == CountExternal(log)
      ensures forall i :: 0 <= i < |log| && log[i].step == NewExternal ==>
        1 <= log[i].target <= |r| && r[log[i].target - 1].external == log[i].walk
      ensures forall k :: 0 <= k < |r| ==> r[k].internal == HolesOf(log, k + 1)
    {
      RecordsCount(log);
      RecordsOfLabels(tracer.grid, tracer.walker, log);
      contours.Items()
    }

    /**
     * Step 1 as the source writes it: the record `contours.grow()` hands back is
     * recycled without being cleared, so the new contour is appended to whatever an
     * earlier scan left in that record, holes included.
     */
    method HandleStep1AsWritten()
      requires tracer.Ready() && tracer.storagePoints == storagePoints && Valid()
      requires tracer.grid == tracer.binary.ToGrid() && tracer.grid.IsForeground(Point(x, y))
      requires Registered(tracer.grid, tracer.labeled, tracer.border)
      requires WalkFrom(tracer.grid, Point(x, y), tracer.walker(tracer.grid, Point(x, y), ExternalDirection))
      modifies contours, storagePoints, tracer.labeled.data
      ensures Valid()
      ensures var recycled := if old(contours.size) < |old(contours.data)| then old(contours.data)[old(contours.size)]
                              else Contour([], []);
        contours.Items() == old(contours.Items()) +
          [Contour(recycled.external + tracer.walker(tracer.grid, Point(x, y), ExternalDirection), recycled.internal)]
    {
      var c := contours.Grow(Contour([], []));
      var external := tracer.Trace(contours.size, x, y, ExternalDirection, c.external);
      contours.Set(contours.size - 1, c.(external := external));
    }
  }

  /** Each record holds its label's external contour and exactly that label's holes. */
  lemma RecordsOfLabels(g: Grid, walker: Walker, log: seq<Visit>)
    requires g.Valid() && Explains(g, walker, log)
    ensures forall i :: 0 <= i < |log| && log[i].step == NewExternal ==>
      1 <= log[i].target <= |Records(log)| && Records(log)[log[i].target - 1].external == log[i].walk
    ensures forall k :: 0 <= k < |Records(log)| ==> Records(log)[k].internal == HolesOf(log, k + 1)
  {
    forall i | 0 <= i < |log| && log[i].step == NewExternal
      ensures 1 <= log[i].target <= |Records(log)| && Records(log)[log[i].target - 1].external == log[i].walk
    {
      RecordOfLabel(g, walker, log, i);
    }
    forall k | 0 <= k < |Records(log)|
      ensures Records(log)[k].internal == HolesOf(log, k + 1)
    {
      HolesOfRecord(g, walker, log, k);
    }
  }

  /**
   * The recycled record reproduces the record a fresh scan builds only when it was
   * empty: any point or hole an earlier scan left in it survives.
   */
  lemma StaleRecordDiffers(recycled: Contour, walk: seq<Point>)
    ensures Contour(recycled.external + walk, recycled.internal) == Contour(walk, []) <==> recycled == Contour([], [])
  {
    if Contour(recycled.external + walk, recycled.internal) == Contour(walk, []) {
      assert |recycled.external + walk| == |walk|;
    }
  }

  /**
   * A background pixel can carry a label only because some trace stamped it through
   * the tracer's coordinate shift; with no shift, background stays unlabelled.
   */
  lemma LabelledBackgroundWasTraced(g: Grid, walker: Walker, log: seq<Visit>, labeled: ImageSInt32, border: int)
    requires g.Valid() && Explains(g, walker, log) && LabelsRead(g, walker, labeled, border, log)
    requires labeled.Valid() && labeled.width == g.width && labeled.height == g.height
    requires Registered(g, labeled, border)
    requires labeled.data[..] == LabelsAfter(labeled, border, log)
    ensures forall x, y :: g.InBounds(x, y) && g.At(x, y) != 1 && labeled.Get(x, y) != 0 ==>
      Point(x + border, y + border) in TracedPixels(log)
    ensures border == 0 ==> forall x, y :: g.InBounds(x, y) && g.At(x, y) != 1 ==> labeled.Get(x, y) == 0
  {
    var labels := LabelsAfter(labeled, border, log);
    LabelsAllocated(g, walker, labeled, border, log);
    forall x, y | g.InBounds(x, y) && g.At(x, y) != 1 && labeled.Get(x, y) != 0
      ensures Point(x + border, y + border) in TracedPixels(log)
    {
      CellInBounds(labeled.width, labeled.height, labeled.startIndex, labeled.stride, labeled.data.Length, x, y);
      var i := labeled.Index(x, y);
      assert labels[i] == labeled.data[i] != 0;
      BackgroundOnlyStamped(g, walker, log, labeled, border, x, y);
    }
    if border == 0 {
      forall x, y | g.InBounds(x, y) && g.At(x, y) != 1
        ensures labeled.Get(x, y) == 0
      {
        if labeled.Get(x, y) != 0 {
          TracedAreForeground(g, walker, log, Point(x, y));
        }
      }
    }
  }

  /**
   * A foreground pixel with foreground above it and background or the image's edge below
   * it goes to Step 2 whatever label it carries, so a scan that visits every pixel of
   * `pts` hands out at least |pts| hole lists, whatever the tracer walks.
   */
  lemma {:induction false} ForcedHoleLists(g: Grid, walker: Walker, log: seq<Visit>, pts: set<Point>)
    requires g.Valid() && Explains(g, walker, log)
    requires forall p :: p in pts ==>
      && p in Positions(log) && g.InBounds(p.x, p.y) && 0 < p.y && g.At(p.x, p.y - 1) == 1
      && (p.y == g.height - 1 || g.At(p.x, p.y + 1) == 0)
    ensures |HoleLists(log)| >= |pts|
  {
    if log == [] {
      assert Positions(log) == [];
    } else {
      var prefix, v := log[..|log| - 1], log[|log| - 1];
      var rest := pts - {v.at};
      forall p | p in rest
        ensures p in Positions(prefix)
      {
        assert p in Positions(prefix) + [v.at];
      }
      ForcedHoleLists(g, walker, prefix, rest);
      if v.at in pts {
        assert v.step == Classify(g, v.at, v.seen) == NewInternal;
        assert |pts| == |rest| + 1;
      }
    }
  }

  /** A 3 x 3 ring of foreground around one background pixel, inside a 5 x 5 image of zeros. */
  const Ring: Grid := Grid(5, 5, [0, 0, 0, 0, 0,
                                  0, 1, 1, 1, 0,
                                  0, 1, 0, 1, 0,
                                  0, 1, 1, 1, 0,
                                  0, 0, 0, 0, 0], 0, 5)

  /** A single column of two foreground pixels: one region and no hole. */
  const Column: Grid := Grid(1, 2, [1, 1], 0, 1)

  /** The two bottom corners of the ring. */
  const Corners: set<Point> := {Point(1, 3), Point(3, 3)}

  /** Each corner is foreground, with foreground above it and background below it. */
  lemma RingCorners()
    ensures Ring.Valid() && |Corners| == 2
    ensures forall p :: p in Corners ==>
      && Ring.IsForeground(p) && 0 < p.y && Ring.At(p.x, p.y - 1) == 1
      && (p.y == Ring.height - 1 || Ring.At(p.x, p.y + 1) == 0)
  {
  }

  /**
   * With a binary image the tracer leaves as it is, the ring's one hole gets at least two
   * hole lists in a completed scan: Step 2 takes both corners whatever their labels.
   */
  lemma RingHoleLists(walker: Walker, log: seq<Visit>)
    requires Explains(Ring, walker, log) && Positions(log) == RowsForeground(Ring, Ring.height)
    ensures |HoleLists(log)| >= 2
  {
    RingCorners();
    forall p | p in Corners
      ensures p in Positions(log)
    {
      ForegroundVisitedOnce(Ring, Ring.height);
    }
    ForcedHoleLists(Ring, walker, log, Corners);
  }

  /**
   * A foreground pixel in the last row goes to Step 2 unless Step 1 takes it, since the
   * test of the pixel below treats the row past the image as background: a completed
   * scan of `Column`, which has no hole, hands out a hole list.
   */
  lemma LastRowHoleList(walker: Walker, log: seq<Visit>)
    requires Explains(Column, walker, log) && Positions(log) == RowsForeground(Column, Column.height)
    ensures |HoleLists(log)| >= 1
  {
    assert Column.At(0, 0) == 1 && Column.At(0, 1) == 1;
    assert Point(0, 1) in Positions(log) by {
      ForegroundVisitedOnce(Column, Column.height);
      assert Column.IsForeground(Point(0, 1));
    }
    ForcedHoleLists(Column, walker, log, {Point(0, 1)});
  }
}
