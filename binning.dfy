/** The histogram binner of density2d (fc/gate.py:230-271): each event's bin
    on each axis, the reconciliation of np.digitize with np.histogram2d's
    closed last bin, the outlier test, and the per-bin lists of row indices. */
module Binning {
  import opened GateCommon

  predicate Increasing(e: seq<real>)
  {
    forall i, j :: 0 <= i < j < |e| ==> e[i] < e[j]
  }

  /** Bin edges as np.histogram2d takes them: at least one bin, strictly increasing. */
  predicate ValidEdges(e: seq<real>)
  {
    |e| >= 2 && Increasing(e)
  }

  /** np.digitize(x, edges) with increasing edges and right=False: the number
      of edges at or below x. */
  function Digitize(edges: seq<real>, x: real): (k: nat)
    ensures k <= |edges|
  {
    if edges == [] then 0
    else Digitize(edges[..|edges| - 1], x) + (if edges[|edges| - 1] <= x then 1 else 0)
  }

  /** The index np.digitize returns brackets x: edges[k-1] <= x < edges[k],
      where a missing edge imposes nothing. */
  lemma {:induction false} DigitizeBrackets(edges: seq<real>, x: real)
    requires Increasing(edges)
    ensures var k := Digitize(edges, x);
      (k == 0 || edges[k - 1] <= x) && (k == |edges| || x < edges[k])
  {
    if edges != [] {
      var m := |edges| - 1;
      DigitizeBrackets(edges[..m], x);
    }
  }

  /** A histogram cell on one axis as np.histogram2d counts it: half-open
      [edges[b], edges[b+1]) except that the last cell also holds its upper edge. */
  predicate InHistogramBin(edges: seq<real>, x: real, b: int)
  {
    && 0 <= b < |edges| - 1
    && edges[b] <= x
    && (x < edges[b + 1] || (b == |edges| - 2 && x == edges[b + 1]))
  }

  /** An event's bin on one axis: np.digitize(x, edges) - 1, with a value equal
      to the last edge moved into the last bin. */
  function BinIndex(edges: seq<real>, x: real): (b: int)
    requires ValidEdges(edges)
    ensures -1 <= b <= |edges| - 1
  {
    if x == edges[|edges| - 1] then |edges| - 2 else Digitize(edges, x) - 1
  }

  /** BinIndex puts a value below the first edge in bin -1 and one above the
      last edge in bin |edges| - 1 (the two outlier bins), and otherwise in the
      one histogram cell that holds it. */
  lemma {:induction false} BinIndexSpec(edges: seq<real>, x: real)
    requires ValidEdges(edges)
    ensures -1 <= BinIndex(edges, x) <= |edges| - 1
    ensures x < edges[0] ==> BinIndex(edges, x) == -1
    ensures edges[|edges| - 1] < x ==> BinIndex(edges, x) == |edges| - 1
    ensures edges[0] <= x <= edges[|edges| - 1] ==> InHistogramBin(edges, x, BinIndex(edges, x))
    ensures forall b :: 0 <= b < |edges| - 1 ==> (BinIndex(edges, x) == b <==> InHistogramBin(edges, x, b))
  {
    DigitizeBrackets(edges, x);
    var last := |edges| - 1;
    if x < edges[0] {
      assert Digitize(edges, x) == 0;
    } else if edges[last] < x {
      assert Digitize(edges, x) == |edges|;
    }
    forall b | 0 <= b < last && InHistogramBin(edges, x, b) ensures BinIndex(edges, x) == b {
      var k := BinIndex(edges, x);
      assert InHistogramBin(edges, x, k);
    }
  }

  /** The flattened cell (row-major, as H.ravel()) of an event whose axis bins
      are xi and yi, or -1 when either is an outlier bin (gate.py:260-269). */
  function FlatCell(xi: int, yi: int, nx: nat, ny: nat): (c: int)
    requires -1 <= xi <= nx && -1 <= yi <= ny
    ensures -1 <= c < nx * ny
    ensures c == -1 <==> (xi == -1 || xi == nx || yi == -1 || yi == ny)
  {
    if xi == -1 || xi == nx || yi == -1 || yi == ny then -1
    else
      assert xi * ny + yi < nx * ny by {
        assert (xi + 1) * ny <= nx * ny by { MulLeft(xi + 1, nx, ny); }
      }
      xi * ny + yi
  }

  lemma {:induction false} MulLeft(a: int, b: int, c: nat)
    requires a <= b
    ensures a * c <= b * c
  {
  }

  /** Distinct in-range axis bins give distinct flattened cells. */
  lemma {:induction false} FlatCellInjective(xi: nat, yi: nat, i: nat, j: nat, ny: nat)
    requires yi < ny && j < ny
    requires xi * ny + yi == i * ny + j
    ensures xi == i && yi == j
  {
    if xi < i { MulLeft(xi + 1, i, ny); }
    if i < xi { MulLeft(i + 1, xi, ny); }
  }

  /** The flattened cell of every event, from its per-axis bins. */
  function Cells(ix: seq<int>, iy: seq<int>, nx: nat, ny: nat): (cells: seq<int>)
    requires |ix| == |iy|
    requires forall k :: 0 <= k < |ix| ==> -1 <= ix[k] <= nx && -1 <= iy[k] <= ny
    ensures |cells| == |ix|
    ensures forall k :: 0 <= k < |ix| ==> cells[k] == FlatCell(ix[k], iy[k], nx, ny)
  {
    seq(|ix|, k requires 0 <= k < |ix| => FlatCell(ix[k], iy[k], nx, ny))
  }

  /** The row indices, in increasing order, of the events whose cell is in s. */
  function RowsIn(cells: seq<int>, s: set<int>): (r: seq<nat>)
    ensures forall j :: 0 <= j < |r| ==> r[j] < |cells|
    ensures StrictlyIncreasing(r)
    ensures forall k: int :: k in r <==> 0 <= k < |cells| && cells[k] in s
  {
    if cells == [] then []
    else
      var m := |cells| - 1;
      RowsIn(cells[..m], s) + (if cells[m] in s then [m] else [])
  }

  /** Extending the events by one appends that event's index when its cell is in s. */
  lemma {:induction false} RowsInSnoc(cells: seq<int>, i: nat, s: set<int>)
    requires i < |cells|
    ensures RowsIn(cells[..i + 1], s) == RowsIn(cells[..i], s) + (if cells[i] in s then [i] else [])
  {
    assert cells[..i + 1][..i] == cells[..i];
  }

  /** No event lies in the empty set of cells. */
  lemma {:induction false} RowsInNone(cells: seq<int>)
    ensures RowsIn(cells, {}) == []
  {
    if cells != [] {
      RowsInNone(cells[..|cells| - 1]);
    }
  }

  /** The cells 0 .. K - 1 of a grid of K cells. */
  function AllCells(K: nat): (s: set<int>)
    ensures forall c :: c in s <==> 0 <= c < K
  {
    var r: seq<int> := Range(K);
    assert forall c :: c in r <==> 0 <= c < K by {
      forall c ensures c in r <==> 0 <= c < K {
        if 0 <= c < K { assert r[c] == c; }
      }
    }
    ElementsOf(r)
  }

  /** The loop of gate.py:266-271: append each event that is not an outlier on
      either axis to the list of its cell, and count those events in N. */
  method AccumulateBins(ix: seq<int>, iy: seq<int>, nx: nat, ny: nat)
    returns (hi: seq<seq<nat>>, count: nat)
    requires |ix| == |iy|
    requires forall k :: 0 <= k < |ix| ==> -1 <= ix[k] <= nx && -1 <= iy[k] <= ny
    ensures |hi| == nx * ny
    ensures forall c :: 0 <= c < nx * ny ==> hi[c] == RowsIn(Cells(ix, iy, nx, ny), {c})
    ensures count == |RowsIn(Cells(ix, iy, nx, ny), AllCells(nx * ny))|
  {
    ghost var cells := Cells(ix, iy, nx, ny);
    var grid := new seq<nat>[nx * ny](_ => []);
    count := 0;
    for i := 0 to |ix|
      invariant forall c :: 0 <= c < nx * ny ==> grid[c] == RowsIn(cells[..i], {c})
      invariant count == |RowsIn(cells[..i], AllCells(nx * ny))|
    {
      RowsInSnoc(cells, i, AllCells(nx * ny));
      forall c | 0 <= c < nx * ny
        ensures RowsIn(cells[..i + 1], {c}) == RowsIn(cells[..i], {c}) + (if cells[i] == c then [i] else [])
      {
        RowsInSnoc(cells, i, {c});
      }
      if ix[i] != -1 && ix[i] != nx && iy[i] != -1 && iy[i] != ny {
        var c := ix[i] * ny + iy[i];
        assert c == cells[i] && 0 <= c < nx * ny;
        grid[c] := grid[c] + [i];
        count := count + 1;
      } else {
        assert cells[i] == -1;
      }
    }
    assert cells[..|ix|] == cells;
    hi := grid[..];
  }

  /** Concatenation of a list of lists, in order. */
  function Flatten(lists: seq<seq<nat>>): seq<nat>
  {
    if lists == [] then [] else Flatten(lists[..|lists| - 1]) + lists[|lists| - 1]
  }

  function ElementsOf(s: seq<int>): (r: set<int>)
    ensures forall c :: c in r <==> c in s
  {
    set c | c in s
  }

  predicate Distinct(s: seq<int>)
  {
    forall i, j :: 0 <= i < j < |s| ==> s[i] != s[j]
  }

  /** Adding a cell c to a set of cells s adds exactly the events of c. */
  lemma {:induction false} RowsInSplit(cells: seq<int>, s: set<int>, c: int)
    requires c !in s
    ensures multiset(RowsIn(cells, s + {c})) == multiset(RowsIn(cells, s)) + multiset(RowsIn(cells, {c}))
  {
    if cells != [] {
      var m := |cells| - 1;
      RowsInSplit(cells[..m], s, c);
    }
  }

  /** The lists of distinct cells, concatenated, hold each event of those cells
      exactly once. */
  lemma {:induction false} FlattenBins(cells: seq<int>, cs: seq<int>, lists: seq<seq<nat>>)
    requires |lists| == |cs| && Distinct(cs)
    requires forall j :: 0 <= j < |cs| ==> lists[j] == RowsIn(cells, {cs[j]})
    ensures multiset(Flatten(lists)) == multiset(RowsIn(cells, ElementsOf(cs)))
  {
    if cs == [] {
      assert ElementsOf(cs) == {};
      RowsInNone(cells);
    } else {
      var m := |cs| - 1;
      FlattenBins(cells, cs[..m], lists[..m]);
      assert ElementsOf(cs) == (ElementsOf(cs[..m])) + {cs[m]};
      RowsInSplit(cells, ElementsOf(cs[..m]), cs[m]);
    }
  }

  /** The length of a concatenation is the sum of the lengths. */
  lemma {:induction false} FlattenLength(lists: seq<seq<nat>>)
    ensures |Flatten(lists)| == Sum(seq(|lists|, j requires 0 <= j < |lists| => |lists[j]|))
  {
    if lists != [] {
      var m := |lists| - 1;
      FlattenLength(lists[..m]);
      assert seq(|lists|, j requires 0 <= j < |lists| => |lists[j]|)[..m]
          == seq(m, j requires 0 <= j < m => |lists[..m][j]|);
    }
  }

  /** The per-bin lists partition the in-range events: an event is in the list
      of its own cell and of no other, outliers are in none, and N equals the
      total length of the lists (the raw histogram's total count). */
  lemma {:induction false} BinsPartition(cells: seq<int>, K: nat, hi: seq<seq<nat>>)
    requires forall k :: 0 <= k < |cells| ==> -1 <= cells[k] < K
    requires |hi| == K && forall c :: 0 <= c < K ==> hi[c] == RowsIn(cells, {c})
    ensures forall k, c :: 0 <= k < |cells| && 0 <= c < K ==> (k in hi[c] <==> cells[k] == c)
    ensures forall k :: 0 <= k < |cells| && cells[k] == -1 ==> forall c :: 0 <= c < K ==> k !in hi[c]
    ensures Sum(seq(K, c requires 0 <= c < K => |hi[c]|)) == |RowsIn(cells, AllCells(K))|
  {
    var cs: seq<int> := Range(K);
    FlattenBins(cells, cs, hi);
    assert ElementsOf(cs) == AllCells(K) by {
      forall c | 0 <= c < K ensures c in cs { assert cs[c] == c; }
    }
    FlattenLength(hi);
    assert |Flatten(hi)| == |multiset(Flatten(hi))|;
  }

  /** np.digitize(xs, edges) - 1 with the last edge moved into the last bin. */
  function BinIndices(edges: seq<real>, xs: seq<real>): (ix: seq<int>)
    requires ValidEdges(edges)
    ensures |ix| == |xs|
    ensures forall k :: 0 <= k < |xs| ==> ix[k] == BinIndex(edges, xs[k])
  {
    seq(|xs|, k requires 0 <= k < |xs| => BinIndex(edges, xs[k]))
  }

  /** Every event's cell, from its two channel values and the bin edges. */
  function PointCells(xs: seq<real>, ys: seq<real>, xe: seq<real>, ye: seq<real>): (cells: seq<int>)
    requires |xs| == |ys| && ValidEdges(xe) && ValidEdges(ye)
    ensures |cells| == |xs|
    ensures forall k :: 0 <= k < |xs| ==>
      cells[k] == FlatCell(BinIndex(xe, xs[k]), BinIndex(ye, ys[k]), |xe| - 1, |ye| - 1)
  {
    Cells(BinIndices(xe, xs), BinIndices(ye, ys), |xe| - 1, |ye| - 1)
  }

  /** An event is dropped as an outlier exactly when it lies outside the edge
      range on some axis: a value equal to the last edge is kept. */
  lemma {:induction false} OutlierIffOutsideEdges(xs: seq<real>, ys: seq<real>, xe: seq<real>, ye: seq<real>, k: nat)
    requires |xs| == |ys| && ValidEdges(xe) && ValidEdges(ye) && k < |xs|
    ensures PointCells(xs, ys, xe, ye)[k] == -1 <==>
      !(xe[0] <= xs[k] <= xe[|xe| - 1] && ye[0] <= ys[k] <= ye[|ye| - 1])
  {
    BinIndexSpec(xe, xs[k]);
    BinIndexSpec(ye, ys[k]);
  }

  /** The cells agree with np.histogram2d: an in-range event's cell is (i, j)
      exactly when its x value is in histogram bin i and its y value in
      histogram bin j, so the lists hold what the raw histogram H counts. */
  lemma {:induction false} CellIsHistogramCell(xs: seq<real>, ys: seq<real>, xe: seq<real>, ye: seq<real>, k: nat, i: nat, j: nat)
    requires |xs| == |ys| && ValidEdges(xe) && ValidEdges(ye) && k < |xs|
    requires i < |xe| - 1 && j < |ye| - 1
    ensures PointCells(xs, ys, xe, ye)[k] == i * (|ye| - 1) + j <==>
      InHistogramBin(xe, xs[k], i) && InHistogramBin(ye, ys[k], j)
  {
    BinIndexSpec(xe, xs[k]);
    BinIndexSpec(ye, ys[k]);
    var ny := |ye| - 1;
    var xi, yi := BinIndex(xe, xs[k]), BinIndex(ye, ys[k]);
    var c := PointCells(xs, ys, xe, ye)[k];
    if c == i * ny + j {
      assert c != -1;
      assert 0 <= xi < |xe| - 1 && 0 <= yi < ny;
      FlatCellInjective(xi, yi, i, j, ny);
    }
  }
}
