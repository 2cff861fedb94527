/** The event array shared by every gate, and the two ways fc/gate.py picks
    rows out of it: a Boolean mask (`data[mask]`) and an array of row indices
    (`data[mask]` with an integer index array, as density2d returns). */
module Points {
  import opened GateCommon

  /** What a Boolean-mask gate returns with full_output: the gated rows and the mask. */
  datatype GateOutput<T> = GateOutput(gated: seq<T>, mask: seq<bool>)

  /** An N x D event array: every row holds `width` channel values. */
  predicate IsMatrix(data: seq<seq<real>>, width: nat)
  {
    forall i :: 0 <= i < |data| ==> |data[i]| == width
  }

  /** data[:, c]: the values of one channel, row by row. */
  function Column(data: seq<seq<real>>, width: nat, c: nat): (col: seq<real>)
    requires IsMatrix(data, width) && c < width
    ensures |col| == |data| && forall i :: 0 <= i < |data| ==> col[i] == data[i][c]
  {
    seq(|data|, i requires 0 <= i < |data| => data[i][c])
  }

  /** data[mask] for a Boolean mask: the rows whose entry is true. */
  function Select<T>(rows: seq<T>, mask: seq<bool>): (r: seq<T>)
    requires |mask| == |rows|
    ensures |r| <= |rows|
  {
    if rows == [] then []
    else
      var m := |rows| - 1;
      Select(rows[..m], mask[..m]) + (if mask[m] then [rows[m]] else [])
  }

  /** np.nonzero(mask): the positions of the true entries, in increasing order. */
  function TrueIndices(mask: seq<bool>): (r: seq<nat>)
    ensures forall j :: 0 <= j < |r| ==> r[j] < |mask|
    ensures StrictlyIncreasing(r)
    ensures forall k: int :: k in r <==> 0 <= k < |mask| && mask[k]
  {
    if mask == [] then []
    else
      var m := |mask| - 1;
      TrueIndices(mask[..m]) + (if mask[m] then [m] else [])
  }

  /** data[idx] for an integer index array: the rows at the listed positions. */
  function Gather<T>(rows: seq<T>, idx: seq<nat>): (r: seq<T>)
    requires forall j :: 0 <= j < |idx| ==> idx[j] < |rows|
    ensures |r| == |idx|
  {
    seq(|idx|, j requires 0 <= j < |idx| => rows[idx[j]])
  }

  /** The Boolean mask of length n that is true exactly at the listed indices. */
  function IndexMask(n: nat, idx: seq<nat>): (mask: seq<bool>)
    ensures |mask| == n
  {
    seq(n, k => k in idx)
  }

  /** Gated data is the rows whose mask entry is true, in their original order:
      data[mask] keeps row i exactly when mask[i], and keeps the rows in the
      order of their indices. */
  lemma {:induction false} SelectIsGather<T>(rows: seq<T>, mask: seq<bool>)
    requires |mask| == |rows|
    ensures Select(rows, mask) == Gather(rows, TrueIndices(mask))
  {
    if rows != [] {
      var m := |rows| - 1;
      SelectIsGather(rows[..m], mask[..m]);
      var a := TrueIndices(mask[..m]);
      var tail := if mask[m] then [m] else [];
      assert TrueIndices(mask) == a + tail;
      assert Select(rows, mask) == Select(rows[..m], mask[..m]) + (if mask[m] then [rows[m]] else []);
      assert Gather(rows[..m], a) == Gather(rows, a) by {
        forall j | 0 <= j < |a| ensures Gather(rows[..m], a)[j] == Gather(rows, a)[j] {
          assert a[j] < m;
        }
      }
      var whole := Gather(rows, a + tail);
      assert whole == Gather(rows, a) + (if mask[m] then [rows[m]] else []) by {
        forall j | 0 <= j < |a| ensures whole[j] == Gather(rows, a)[j] {
          assert (a + tail)[j] == a[j];
        }
      }
    }
  }

  /** Two strictly increasing sequences with the same elements are equal. */
  lemma {:induction false} IncreasingUnique(a: seq<int>, b: seq<int>)
    requires StrictlyIncreasing(a) && StrictlyIncreasing(b)
    requires forall x :: x in a <==> x in b
    ensures a == b
  {
    if a != [] { assert a[0] in a; }
    if b != [] { assert b[0] in b; }
    if a != [] && b != [] {
      assert a[0] == b[0] by {
        var i :| 0 <= i < |b| && b[i] == a[0];
        var j :| 0 <= j < |a| && a[j] == b[0];
        assert b[0] <= a[0] && a[0] <= b[0];
      }
      forall x ensures x in a[1..] <==> x in b[1..] {
        if x in a[1..] { assert x != a[0]; assert x in b; }
        if x in b[1..] { assert x != b[0]; assert x in a; }
      }
      IncreasingUnique(a[1..], b[1..]);
      assert a == [a[0]] + a[1..] && b == [b[0]] + b[1..];
    }
  }

  /** A strictly increasing array of valid row indices, as density2d returns
      for its mask, selects the same rows in the same order as the Boolean mask
      that is true exactly at those indices: the index array is that Boolean
      mask's np.nonzero. */
  lemma {:induction false} IndexArrayIsMask<T>(rows: seq<T>, idx: seq<nat>)
    requires StrictlyIncreasing(idx)
    requires forall j :: 0 <= j < |idx| ==> idx[j] < |rows|
    ensures TrueIndices(IndexMask(|rows|, idx)) == idx
    ensures Gather(rows, idx) == Select(rows, IndexMask(|rows|, idx))
  {
    var mask := IndexMask(|rows|, idx);
    IncreasingUnique(TrueIndices(mask), idx);
    SelectIsGather(rows, mask);
  }

  /** A mask that is true exactly on the positions lo .. hi - 1 selects the
      contiguous block data[lo..hi]. */
  lemma {:induction false} SelectBlock<T>(rows: seq<T>, mask: seq<bool>, lo: nat, hi: nat)
    requires |mask| == |rows| && lo <= hi <= |rows|
    requires forall i :: 0 <= i < |mask| ==> (mask[i] <==> lo <= i < hi)
    ensures Select(rows, mask) == rows[lo..hi]
  {
    var idx: seq<nat> := seq(hi - lo, j requires 0 <= j < hi - lo => lo + j);
    forall x ensures x in TrueIndices(mask) <==> x in idx {
      if lo <= x < hi { assert idx[x - lo] == x; }
    }
    IncreasingUnique(TrueIndices(mask), idx);
    SelectIsGather(rows, mask);
    assert Gather(rows, idx) == rows[lo..hi] by {
      forall j | 0 <= j < hi - lo ensures Gather(rows, idx)[j] == rows[lo..hi][j] {
        assert idx[j] == lo + j;
      }
    }
  }
}
