/** The density gate of fc/gate.py:191-305 from the channel check to the
    gated rows: bin every event, collect the events of each cell, and keep the
    events of the densest cells until the requested fraction of the in-range
    events is reached. The histogram edges and the blurred density of each
    cell are inputs (np.histogram2d's automatic edges and the Gaussian filter
    are not modelled). */
module Density2dGate {
  import opened GateCommon
  import opened Points
  import opened Binning
  import opened Selection

  /** The outputs of density2d with full_output, less the contour: the gated
      rows, the sorted row indices that select them, and the cut index Nidx. */
  datatype DensityOutput = DensityOutput(gated: seq<seq<real>>, mask: seq<nat>, cut: nat)

  /** The checks density2d makes before binning: exactly two channels, both
      present in the data, and more than one event. */
  predicate Admissible(data: seq<seq<real>>, width: nat, channels: seq<nat>)
  {
    |channels| == 2 && channels[0] < width && channels[1] < width && |data| > 1
  }

  /** The cell of every event in the two gating channels (-1 for an outlier). */
  function EventCells(data: seq<seq<real>>, width: nat, channels: seq<nat>, xe: seq<real>, ye: seq<real>): (cells: seq<int>)
    requires IsMatrix(data, width) && ValidEdges(xe) && ValidEdges(ye)
    requires |channels| == 2 && channels[0] < width && channels[1] < width
    ensures |cells| == |data|
    ensures forall k :: 0 <= k < |data| ==> -1 <= cells[k] < (|xe| - 1) * (|ye| - 1)
    ensures forall k :: 0 <= k < |data| ==> (cells[k] == -1 <==>
      !(xe[0] <= data[k][channels[0]] <= xe[|xe| - 1] && ye[0] <= data[k][channels[1]] <= ye[|ye| - 1]))
  {
    var xs, ys := Column(data, width, channels[0]), Column(data, width, channels[1]);
    var cells := PointCells(xs, ys, xe, ye);
    forall k | 0 <= k < |data|
      ensures cells[k] == -1 <==>
        !(xe[0] <= data[k][channels[0]] <= xe[|xe| - 1] && ye[0] <= data[k][channels[1]] <= ye[|ye| - 1])
    {
      OutlierIffOutsideEdges(xs, ys, xe, ye, k);
    }
    cells
  }

  /** N: the number of events inside the edges on both channels. */
  function InRangeCount(data: seq<seq<real>>, width: nat, channels: seq<nat>, xe: seq<real>, ye: seq<real>): (total: nat)
    requires IsMatrix(data, width) && ValidEdges(xe) && ValidEdges(ye)
    requires |channels| == 2 && channels[0] < width && channels[1] < width
    ensures total <= |data|
  {
    var cells := EventCells(data, width, channels, xe, ye);
    var rows := RowsIn(cells, AllCells((|xe| - 1) * (|ye| - 1)));
    RowsInBound(cells, rows);
    |rows|
  }

  /** A strictly increasing list of indices below n is no longer than n. */
  lemma {:induction false} RowsInBound(cells: seq<int>, rows: seq<nat>)
    requires StrictlyIncreasing(rows) && forall j :: 0 <= j < |rows| ==> rows[j] < |cells|
    ensures |rows| <= |cells|
  {
    if rows != [] {
      var m := |rows| - 1;
      assert rows[m] >= m by {
        IncreasingFromZero(rows, m);
      }
    }
  }

  /** The j-th element of a strictly increasing sequence of naturals is at least j. */
  lemma {:induction false} IncreasingFromZero(rows: seq<nat>, j: nat)
    requires StrictlyIncreasing(rows) && j < |rows|
    ensures rows[j] >= j
  {
    if j > 0 {
      IncreasingFromZero(rows, j - 1);
    }
  }

  /** What a successful density2d returns, for the cells of the events and
      the target n: the cut Nidx is a cell position; the index list is exactly
      the in-range events whose cell is among the first Nidx + 1 cells of the
      density order, and there are at least n of them; every shorter prefix of
      the order holds fewer than n events, so Nidx is the first position whose
      cumulative count reaches n; every kept event's cell is at least as dense
      as the cell of any in-range event gated out; and the gated rows are
      those events, in row order. */
  predicate KeepsDensest(data: seq<seq<real>>, cells: seq<int>, density: seq<real>, n: int, out: DensityOutput)
    requires |cells| == |data|
  {
    var order := ArgsortDescending(density);
    && out.cut < |density|
    && out.mask == RowsIn(cells, ElementsOf(order[..out.cut + 1]))
    && |out.mask| >= n
    && (forall m :: 1 <= m <= out.cut ==> PrefixCount(cells, order, m) < n)
    && (forall k, k' :: k in out.mask && 0 <= k' < |data| && k' !in out.mask && cells[k'] != -1 ==>
          0 <= cells[k] < |density| && 0 <= cells[k'] < |density| && density[cells[k]] >= density[cells[k']])
    && out.gated == Gather(data, out.mask)
    && out.gated == Select(data, IndexMask(|data|, out.mask))
  }

  /** density2d on exact reals. `density` is the blurred histogram sH (or D,
      which orders the cells the same way) flattened row-major, one value per
      cell (x bin, y bin). */
  method Density2d(data: seq<seq<real>>, width: nat, channels: seq<nat>,
                   xe: seq<real>, ye: seq<real>, density: seq<real>, fraction: real)
    returns (r: Result<DensityOutput>)
    requires IsMatrix(data, width)
    requires ValidEdges(xe) && ValidEdges(ye) && |density| == (|xe| - 1) * (|ye| - 1)
    ensures |channels| != 2 ==> r == Err(WrongChannelCount)
    ensures |channels| == 2 && (channels[0] >= width || channels[1] >= width) ==> r == Err(ChannelOutOfRange)
    ensures |channels| == 2 && channels[0] < width && channels[1] < width && |data| <= 1 ==> r == Err(TooFewEvents)
    ensures r == Err(TargetUnreachable) <==>
      Admissible(data, width, channels) &&
      TargetCount(fraction, InRangeCount(data, width, channels, xe, ye)) > InRangeCount(data, width, channels, xe, ye)
    ensures r.Ok? ==> Admissible(data, width, channels)
    ensures Admissible(data, width, channels) ==> r.Ok? || r == Err(TargetUnreachable)
    ensures r.Ok? ==>
      KeepsDensest(data, EventCells(data, width, channels, xe, ye), density,
                   TargetCount(fraction, InRangeCount(data, width, channels, xe, ye)), r.value)
  {
    if |channels| != 2 {
      return Err(WrongChannelCount);
    }
    if channels[0] >= width || channels[1] >= width {
      return Err(ChannelOutOfRange);
    }
    if |data| <= 1 {
      return Err(TooFewEvents);
    }
    r := GateDensest(data, width, channels, xe, ye, density, fraction);
  }

  /** density2d once its checks have passed: bin the events, accumulate the
      lists, and keep the events of the densest cells. */
  method GateDensest(data: seq<seq<real>>, width: nat, channels: seq<nat>,
                     xe: seq<real>, ye: seq<real>, density: seq<real>, fraction: real)
    returns (r: Result<DensityOutput>)
    requires IsMatrix(data, width) && Admissible(data, width, channels)
    requires ValidEdges(xe) && ValidEdges(ye) && |density| == (|xe| - 1) * (|ye| - 1)
    ensures r == Err(TargetUnreachable) <==>
      TargetCount(fraction, InRangeCount(data, width, channels, xe, ye)) > InRangeCount(data, width, channels, xe, ye)
    ensures r.Ok? || r == Err(TargetUnreachable)
    ensures r.Ok? ==>
      KeepsDensest(data, EventCells(data, width, channels, xe, ye), density,
                   TargetCount(fraction, InRangeCount(data, width, channels, xe, ye)), r.value)
  {
    var xs, ys := Column(data, width, channels[0]), Column(data, width, channels[1]);
    var nx, ny := |xe| - 1, |ye| - 1;
    var ix, iy := BinIndices(xe, xs), BinIndices(ye, ys);
    var hi, total := AccumulateBins(ix, iy, nx, ny);
    ghost var cells := EventCells(data, width, channels, xe, ye);
    assert Cells(ix, iy, nx, ny) == cells;
    assert total == InRangeCount(data, width, channels, xe, ye);
    var n := TargetCount(fraction, total);
    MulLeft(1, nx, ny);
    var order := ArgsortDescending(density);
    SelectionOutcome(data, cells, hi, density, n);
    match SelectDensest(hi, order, n)
    case Err(e) =>
      r := Err(e);
    case Ok(selection) =>
      r := Ok(DensityOutput(Gather(data, selection.mask), selection.mask, selection.cut));
  }

  /** What the selection step yields for the lists of the binner and the
      density order: it fails exactly when the target exceeds N, and otherwise
      its cut and index list satisfy KeepsDensest. */
  lemma {:induction false} SelectionOutcome(data: seq<seq<real>>, cells: seq<int>, hi: seq<seq<nat>>, density: seq<real>, n: int)
    requires |cells| == |data| && |density| > 0
    requires forall k :: 0 <= k < |cells| ==> -1 <= cells[k] < |density|
    requires |hi| == |density| && forall c :: 0 <= c < |density| ==> hi[c] == RowsIn(cells, {c})
    ensures var order := ArgsortDescending(density);
      SelectDensest(hi, order, n).Err? <==> n > |RowsIn(cells, AllCells(|density|))|
    ensures var order := ArgsortDescending(density);
      SelectDensest(hi, order, n).Err? ==> SelectDensest(hi, order, n).error == TargetUnreachable
    ensures var order := ArgsortDescending(density);
      SelectDensest(hi, order, n).Ok? ==>
        var r := SelectDensest(hi, order, n).value;
        (forall j :: 0 <= j < |r.mask| ==> r.mask[j] < |data|) &&
        KeepsDensest(data, cells, density, n, DensityOutput(Gather(data, r.mask), r.mask, r.cut))
  {
    var order := ArgsortDescending(density);
    PermutationOfCells(order, |density|);
    SelectionFailsIff(cells, |density|, hi, order, n);
    if SelectDensest(hi, order, n).Ok? {
      SelectionKept(data, cells, hi, density, n);
    }
  }

  /** When the selection succeeds, its cut and index list satisfy KeepsDensest. */
  lemma {:induction false} SelectionKept(data: seq<seq<real>>, cells: seq<int>, hi: seq<seq<nat>>, density: seq<real>, n: int)
    requires |cells| == |data|
    requires forall k :: 0 <= k < |cells| ==> -1 <= cells[k] < |density|
    requires |hi| == |density| && forall c :: 0 <= c < |density| ==> hi[c] == RowsIn(cells, {c})
    requires SelectDensest(hi, ArgsortDescending(density), n).Ok?
    ensures var r := SelectDensest(hi, ArgsortDescending(density), n).value;
      (forall j :: 0 <= j < |r.mask| ==> r.mask[j] < |data|) &&
      KeepsDensest(data, cells, density, n, DensityOutput(Gather(data, r.mask), r.mask, r.cut))
  {
    var K := |density|;
    var order := ArgsortDescending(density);
    PermutationOfCells(order, K);
    var r := SelectDensest(hi, order, n).value;
    DensestRows(cells, K, hi, order, n);
    assert r.mask == RowsIn(cells, ElementsOf(order[..r.cut + 1]));
    CutIsShortest(cells, K, hi, order, n);
    DensestEventsKept(cells, hi, order, density, n);
    IndexArrayIsMask(data, r.mask);
  }
}
