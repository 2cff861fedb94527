/** The threshold selector of density2d (fc/gate.py:273-304): the number of
    events to keep, the order of the cells by density, the shortest prefix of
    that order whose raw counts reach the target, and the sorted row indices
    of the events in those cells. */
module Selection {
  import opened GateCommon
  import opened Binning

  /** np.ceil on an exact real. */
  function Ceil(x: real): (c: int)
    ensures x <= c as real < x + 1.0
  {
    -((-x).Floor)
  }

  /** n = int(np.ceil(gate_fraction * N)), the number of events to keep. */
  function TargetCount(fraction: real, total: nat): (n: int)
    ensures fraction * total as real <= n as real < fraction * total as real + 1.0
    ensures fraction >= 0.0 ==> n >= 0
  {
    Ceil(fraction * total as real)
  }

  /** A larger fraction never asks for fewer events. */
  lemma {:induction false} TargetCountMonotone(f1: real, f2: real, total: nat)
    requires f1 <= f2
    ensures TargetCount(f1, total) <= TargetCount(f2, total)
  {
    ScaleMonotone(f1, f2, total);
  }

  /** The target is at most N exactly when the fraction is at most one (or
      there is nothing to keep). */
  lemma {:induction false} TargetAtMostTotal(fraction: real, total: nat)
    ensures TargetCount(fraction, total) <= total <==> (fraction <= 1.0 || total == 0)
  {
    if fraction <= 1.0 {
      ScaleMonotone(fraction, 1.0, total);
    } else if total > 0 {
      ScaleStrict(1.0, fraction, total);
    }
  }

  /** Scaling by a count preserves the order of two factors. */
  lemma {:induction false} ScaleMonotone(a: real, b: real, k: nat)
    requires a <= b
    ensures a * k as real <= b * k as real
  {
    if k > 0 {
      ScaleMonotone(a, b, k - 1);
      assert a * k as real == a * (k - 1) as real + a;
      assert b * k as real == b * (k - 1) as real + b;
    }
  }

  /** Scaling by a positive count preserves a strict order of two factors. */
  lemma {:induction false} ScaleStrict(a: real, b: real, k: nat)
    requires a < b && k > 0
    ensures a * k as real < b * k as real
  {
    ScaleMonotone(a, b, k - 1);
    assert a * k as real == a * (k - 1) as real + a;
    assert b * k as real == b * (k - 1) as real + b;
  }

  /** A running total of counts never decreases along the sequence. */
  lemma {:induction false} PrefixSumMonotone(s: seq<nat>, i: nat, j: nat)
    requires i <= j <= |s|
    ensures Sum(s[..i]) <= Sum(s[..j])
  {
    if i < j {
      PrefixSumMonotone(s, i, j - 1);
      assert s[..j][..j - 1] == s[..j - 1];
    }
  }

  /** csvH[j] = np.cumsum(svH)[j]: the running total through position j. */
  function Cumsum(svH: seq<nat>, j: nat): int
    requires j < |svH|
  {
    Sum(svH[..j + 1])
  }

  /** Nidx = np.nonzero(np.cumsum(svH) >= n)[0][0], or None where that index
      does not exist (an IndexError in the source). */
  function CutIndex(svH: seq<nat>, n: int): (r: Option<nat>)
    ensures r.Some? ==> r.value < |svH| && Cumsum(svH, r.value) >= n
    ensures r.Some? ==> forall j :: 0 <= j < r.value ==> Cumsum(svH, j) < n
    ensures r.None? ==> forall j :: 0 <= j < |svH| ==> Cumsum(svH, j) < n
  {
    CutFrom(svH, n, 0)
  }

  /** The scan behind CutIndex, from position j on. */
  function CutFrom(svH: seq<nat>, n: int, j: nat): (r: Option<nat>)
    requires j <= |svH|
    requires forall i :: 0 <= i < j ==> Cumsum(svH, i) < n
    ensures r.Some? ==> j <= r.value < |svH| && Cumsum(svH, r.value) >= n
    ensures r.Some? ==> forall i :: 0 <= i < r.value ==> Cumsum(svH, i) < n
    ensures r.None? ==> forall i :: 0 <= i < |svH| ==> Cumsum(svH, i) < n
    decreases |svH| - j
  {
    if j == |svH| then None
    else if Cumsum(svH, j) >= n then Some(j)
    else CutFrom(svH, n, j + 1)
  }

  /** The cut exists exactly when there is at least one cell and the target
      does not exceed the total count. */
  lemma {:induction false} CutIndexExists(svH: seq<nat>, n: int)
    ensures CutIndex(svH, n).Some? <==> |svH| > 0 && n <= Sum(svH)
  {
    if |svH| > 0 {
      var last := |svH| - 1;
      assert Cumsum(svH, last) == Sum(svH) by { assert svH[..last + 1] == svH; }
      var r := CutIndex(svH, n);
      if r.Some? {
        PrefixSumMonotone(svH, r.value + 1, |svH|);
        assert svH[..|svH|] == svH;
      }
    }
  }

  /** For a fixed order, a larger target never gives a shorter prefix. */
  lemma {:induction false} CutIndexMonotone(svH: seq<nat>, n1: int, n2: int)
    requires n1 <= n2 && CutIndex(svH, n2).Some?
    ensures CutIndex(svH, n1).Some? && CutIndex(svH, n1).value <= CutIndex(svH, n2).value
  {
    var c2 := CutIndex(svH, n2).value;
    assert Cumsum(svH, c2) >= n1;
  }

  /** Every listed cell exists, and densities never increase along the list. */
  predicate OrderedByDensity(order: seq<nat>, density: seq<real>)
  {
    && (forall j :: 0 <= j < |order| ==> order[j] < |density|)
    && (forall i, j :: 0 <= i < j < |order| ==> density[order[i]] >= density[order[j]])
  }

  /** What np.argsort(vD)[::-1] yields: every cell exactly once, densest first.
      Among equal densities any order qualifies. */
  predicate IsDensityOrder(order: seq<nat>, density: seq<real>)
  {
    OrderedByDensity(order, density) && multiset(order) == multiset(Range(|density|))
  }

  /** Insert cell x into a list ordered by density, before the first cell that
      is not denser than x. */
  function InsertByDensity(density: seq<real>, x: nat, s: seq<nat>): (r: seq<nat>)
    requires x < |density| && OrderedByDensity(s, density)
    ensures |r| == |s| + 1 && (r[0] == x || (s != [] && r[0] == s[0]))
    ensures multiset(r) == multiset(s) + multiset{x}
    ensures OrderedByDensity(r, density)
  {
    if s == [] || density[x] >= density[s[0]] then [x] + s
    else
      OrderedTail(density, s);
      var rest := InsertByDensity(density, x, s[1..]);
      InsertBehindHead(density, x, s, rest);
      [s[0]] + rest
  }

  /** Dropping the head of a list ordered by density leaves it ordered. */
  lemma {:induction false} OrderedTail(density: seq<real>, s: seq<nat>)
    requires OrderedByDensity(s, density) && s != []
    ensures OrderedByDensity(s[1..], density)
  {
  }

  /** When x is less dense than the head of s, inserting it into the tail and
      putting the head back in front gives an ordered list holding s and x. */
  lemma {:induction false} InsertBehindHead(density: seq<real>, x: nat, s: seq<nat>, rest: seq<nat>)
    requires x < |density| && OrderedByDensity(s, density) && s != [] && density[x] < density[s[0]]
    requires rest != [] && (rest[0] == x || (|s| > 1 && rest[0] == s[1]))
    requires OrderedByDensity(rest, density) && multiset(rest) == multiset(s[1..]) + multiset{x}
    ensures OrderedByDensity([s[0]] + rest, density)
    ensures multiset([s[0]] + rest) == multiset(s) + multiset{x}
  {
    assert density[s[0]] >= density[rest[0]] by {
      if rest[0] != x {
        assert rest[0] == s[1];
      }
    }
    ConsOrdered(density, s[0], rest);
    assert s == [s[0]] + s[1..];
  }

  /** A cell at least as dense as the head of an ordered list can go in front. */
  lemma {:induction false} ConsOrdered(density: seq<real>, y: nat, s: seq<nat>)
    requires y < |density| && OrderedByDensity(s, density)
    requires s != [] ==> density[y] >= density[s[0]]
    ensures OrderedByDensity([y] + s, density)
  {
    var r := [y] + s;
    forall i, j | 0 <= i < j < |r| ensures density[r[i]] >= density[r[j]] {
      if i == 0 && j > 1 {
        assert density[s[0]] >= density[s[j - 1]];
      }
    }
  }

  /** The cells 0 .. m - 1 ordered by density, inserted one by one. */
  function ArgsortPrefix(density: seq<real>, m: nat): (r: seq<nat>)
    requires m <= |density|
    ensures |r| == m
    ensures multiset(r) == multiset(Range(m)) && OrderedByDensity(r, density)
  {
    if m == 0 then []
    else
      assert Range(m) == Range(m - 1) + [m - 1];
      InsertByDensity(density, m - 1, ArgsortPrefix(density, m - 1))
  }

  /** A deterministic np.argsort(vD)[::-1]: densest first, and among equal
      densities the higher flattened index first, which is what a stable
      ascending argsort reversed gives. */
  function ArgsortDescending(density: seq<real>): (order: seq<nat>)
    ensures |order| == |density|
    ensures IsDensityOrder(order, density)
  {
    ArgsortPrefix(density, |density|)
  }

  /** Two density fields of the same shape that compare every pair of cells
      alike, as a field and that field divided by its positive sum do. */
  predicate SameComparisons(d1: seq<real>, d2: seq<real>)
  {
    |d1| == |d2| && forall i, j :: 0 <= i < |d1| && 0 <= j < |d1| ==> (d1[i] >= d1[j] <==> d2[i] >= d2[j])
  }

  /** Dividing the blurred histogram by its positive sum (D = sH / np.sum(sH))
      keeps every comparison between cells. */
  lemma {:induction false} NormalisingKeepsComparisons(sH: seq<real>, total: real)
    requires total > 0.0
    ensures SameComparisons(sH, seq(|sH|, c requires 0 <= c < |sH| => sH[c] / total))
  {
    var d := seq(|sH|, c requires 0 <= c < |sH| => sH[c] / total);
    forall i, j | 0 <= i < |sH| && 0 <= j < |sH| ensures sH[i] >= sH[j] <==> d[i] >= d[j] {
      assert d[i] * total == sH[i] && d[j] * total == sH[j];
      if d[i] >= d[j] {
        assert (d[i] - d[j]) * total >= 0.0;
      } else {
        assert (d[j] - d[i]) * total > 0.0;
      }
    }
  }

  lemma {:induction false} OrderedSameComparisons(s: seq<nat>, d1: seq<real>, d2: seq<real>)
    requires SameComparisons(d1, d2) && OrderedByDensity(s, d1)
    ensures OrderedByDensity(s, d2)
  {
  }

  lemma {:induction false} InsertSameComparisons(d1: seq<real>, d2: seq<real>, x: nat, s: seq<nat>)
    requires SameComparisons(d1, d2)
    requires x < |d1| && OrderedByDensity(s, d1)
    ensures OrderedByDensity(s, d2)
    ensures InsertByDensity(d1, x, s) == InsertByDensity(d2, x, s)
  {
    OrderedSameComparisons(s, d1, d2);
    if s != [] {
      assert s[0] < |d1|;
      assert d1[x] >= d1[s[0]] <==> d2[x] >= d2[s[0]];
      if d1[x] < d1[s[0]] {
        assert OrderedByDensity(s[1..], d1);
        InsertSameComparisons(d1, d2, x, s[1..]);
      }
    }
  }

  lemma {:induction false} ArgsortPrefixSameComparisons(d1: seq<real>, d2: seq<real>, m: nat)
    requires SameComparisons(d1, d2) && m <= |d1|
    ensures ArgsortPrefix(d1, m) == ArgsortPrefix(d2, m)
  {
    if m > 0 {
      ArgsortPrefixSameComparisons(d1, d2, m - 1);
      var prev := ArgsortPrefix(d1, m - 1);
      assert prev == ArgsortPrefix(d2, m - 1);
      InsertSameComparisons(d1, d2, m - 1, prev);
      assert ArgsortPrefix(d1, m) == InsertByDensity(d1, m - 1, prev);
      assert ArgsortPrefix(d2, m) == InsertByDensity(d2, m - 1, prev);
    }
  }

  /** The order of the cells depends only on how densities compare, so it is
      the same for the blurred histogram and for its normalised version. */
  lemma {:induction false} ArgsortSameComparisons(d1: seq<real>, d2: seq<real>)
    requires SameComparisons(d1, d2)
    ensures ArgsortDescending(d1) == ArgsortDescending(d2)
  {
    ArgsortPrefixSameComparisons(d1, d2, |d1|);
  }

  /** Insert x into an ascending list, before the first element not below it. */
  function InsertAscending(x: nat, s: seq<nat>): (r: seq<nat>)
    requires NonDecreasing(s)
    ensures |r| == |s| + 1 && (r[0] == x || (s != [] && r[0] == s[0]))
    ensures NonDecreasing(r) && multiset(r) == multiset(s) + multiset{x}
  {
    if s == [] || x <= s[0] then [x] + s
    else
      var rest := InsertAscending(x, s[1..]);
      AscendingBehindHead(x, s, rest);
      [s[0]] + rest
  }

  /** When x is above the head of s, inserting it into the tail and putting
      the head back in front gives an ascending list holding s and x. */
  lemma {:induction false} AscendingBehindHead(x: nat, s: seq<nat>, rest: seq<nat>)
    requires NonDecreasing(s) && s != [] && s[0] < x
    requires rest != [] && (rest[0] == x || (|s| > 1 && rest[0] == s[1]))
    requires NonDecreasing(rest) && multiset(rest) == multiset(s[1..]) + multiset{x}
    ensures NonDecreasing([s[0]] + rest)
    ensures multiset([s[0]] + rest) == multiset(s) + multiset{x}
  {
    var r := [s[0]] + rest;
    forall i, j | 0 <= i < j < |r| ensures r[i] <= r[j] {
      if i == 0 && j > 1 {
        assert s[0] <= rest[0] <= rest[j - 1];
      }
    }
    assert s == [s[0]] + s[1..];
  }

  /** np.sort on row indices: ascending, and a permutation of its input. */
  function SortAscending(s: seq<nat>): (r: seq<nat>)
    ensures NonDecreasing(r) && multiset(r) == multiset(s)
  {
    if s == [] then []
    else
      assert s == s[..|s| - 1] + [s[|s| - 1]];
      InsertAscending(s[|s| - 1], SortAscending(s[..|s| - 1]))
  }

  /** The head of an ascending sequence is its least element. */
  lemma {:induction false} HeadIsLeast(s: seq<int>, x: int)
    requires NonDecreasing(s) && x in s
    ensures s[0] <= x
  {
    var i :| 0 <= i < |s| && s[i] == x;
    if i > 0 { assert s[0] <= s[i]; }
  }

  /** Two ascending sequences holding the same elements equally often are equal. */
  lemma {:induction false} SortedUnique(a: seq<int>, b: seq<int>)
    requires NonDecreasing(a) && NonDecreasing(b) && multiset(a) == multiset(b)
    ensures a == b
  {
    assert |a| == |b| by { assert |a| == |multiset(a)|; assert |b| == |multiset(b)|; }
    if a != [] {
      assert a[0] in multiset(b) && b[0] in multiset(a);
      HeadIsLeast(b, a[0]);
      HeadIsLeast(a, b[0]);
      var a', b' := a[1..], b[1..];
      assert a == [a[0]] + a';
      assert b == [b[0]] + b';
      assert a[0] == b[0];
      calc {
        multiset(a');
        multiset(a) - multiset{a[0]};
        multiset(b) - multiset{b[0]};
        multiset(b');
      }
      SortedUnique(a', b');
    }
  }

  /** svH: the raw count of each cell, taken in the given order; the raw count
      of a cell is the length of its list of row indices. */
  function SortedCounts(hi: seq<seq<nat>>, order: seq<nat>): (svH: seq<nat>)
    requires forall j :: 0 <= j < |order| ==> order[j] < |hi|
    ensures |svH| == |order|
  {
    seq(|order|, j requires 0 <= j < |order| => |hi[order[j]]|)
  }

  /** vHi[sidx[:m]]: the lists of the first m cells of the order. */
  function Picked(hi: seq<seq<nat>>, order: seq<nat>, m: nat): (lists: seq<seq<nat>>)
    requires m <= |order| && forall j :: 0 <= j < |order| ==> order[j] < |hi|
    ensures |lists| == m
  {
    seq(m, j requires 0 <= j < m => hi[order[j]])
  }

  /** A successful selection: the cut index Nidx and the sorted row indices kept. */
  datatype Cut = Cut(cut: nat, mask: seq<nat>)

  /** gate.py:290-304 after the sort: the cut index Nidx and the sorted row
      indices of the events in the cells at positions 0 .. Nidx of the order. */
  function SelectDensest(hi: seq<seq<nat>>, order: seq<nat>, n: int): (r: Result<Cut>)
    requires forall j :: 0 <= j < |order| ==> order[j] < |hi|
    ensures r.Err? <==> CutIndex(SortedCounts(hi, order), n).None?
    ensures r.Err? ==> r.error == TargetUnreachable
    ensures r.Ok? ==> CutIndex(SortedCounts(hi, order), n) == Some(r.value.cut)
    ensures r.Ok? ==> NonDecreasing(r.value.mask)
    ensures r.Ok? ==> multiset(r.value.mask) == multiset(Flatten(Picked(hi, order, r.value.cut + 1)))
    ensures r.Ok? ==> |r.value.mask| == Sum(SortedCounts(hi, order)[..r.value.cut + 1]) >= n
  {
    var svH := SortedCounts(hi, order);
    match CutIndex(svH, n)
    case None => Err(TargetUnreachable)
    case Some(cut) =>
      var picked := Picked(hi, order, cut + 1);
      var mask := SortAscending(Flatten(picked));
      assert |mask| == Sum(svH[..cut + 1]) by {
        FlattenLength(picked);
        assert svH[..cut + 1] == seq(|picked|, j requires 0 <= j < |picked| => |picked[j]|);
        assert |mask| == |multiset(mask)| == |multiset(Flatten(picked))| == |Flatten(picked)|;
      }
      Ok(Cut(cut, mask))
  }

  /** A permutation of the cells lists each cell exactly once. */
  lemma {:induction false} PermutationOfCells(order: seq<nat>, K: nat)
    requires multiset(order) == multiset(Range(K))
    ensures |order| == K
    ensures forall j :: 0 <= j < |order| ==> order[j] < K
    ensures Distinct(order)
    ensures ElementsOf(order) == AllCells(K)
  {
    assert |order| == |multiset(order)| == |multiset(Range(K))| == K;
    forall j | 0 <= j < |order| ensures order[j] < K {
      assert order[j] in multiset(Range(K));
    }
    forall i, j | 0 <= i < j < |order| ensures order[i] != order[j] {
      RangeMultiplicity(K, order[i]);
      DuplicateCount(order, i, j);
    }
    forall c | 0 <= c < K ensures c in order {
      RangeMultiplicity(K, c);
      assert c in multiset(order);
    }
  }

  /** An element at two positions occurs at least twice. */
  lemma {:induction false} DuplicateCount(s: seq<nat>, i: nat, j: nat)
    requires i < j < |s|
    ensures s[i] == s[j] ==> multiset(s)[s[i]] >= 2
  {
    assert s == s[..i] + [s[i]] + s[i + 1..j] + [s[j]] + s[j + 1..];
  }

  /** The elements of a shorter prefix are among those of a longer one. */
  lemma {:induction false} PrefixElements(s: seq<nat>, m1: nat, m2: nat)
    requires m1 <= m2 <= |s|
    ensures ElementsOf(s[..m1]) <= ElementsOf(s[..m2])
  {
    assert s[..m1] == s[..m2][..m1];
  }

  /** Every cell 0 .. K - 1 occurs once in Range(K), and nothing else occurs. */
  lemma {:induction false} RangeMultiplicity(K: nat, x: int)
    ensures multiset(Range(K))[x] == if 0 <= x < K then 1 else 0
  {
    if K > 0 {
      RangeMultiplicity(K - 1, x);
      assert Range(K) == Range(K - 1) + [K - 1];
    }
  }

  /** The lists of the first m cells of a permutation, concatenated, hold each
      event of those cells exactly once. */
  lemma {:induction false} PrefixRows(cells: seq<int>, K: nat, hi: seq<seq<nat>>, order: seq<nat>, m: nat)
    requires |hi| == K && forall c :: 0 <= c < K ==> hi[c] == RowsIn(cells, {c})
    requires multiset(order) == multiset(Range(K)) && m <= |order|
    ensures forall j :: 0 <= j < |order| ==> order[j] < |hi|
    ensures multiset(Flatten(Picked(hi, order, m))) == multiset(RowsIn(cells, ElementsOf(order[..m])))
    ensures |Flatten(Picked(hi, order, m))| == Sum(SortedCounts(hi, order)[..m])
  {
    PermutationOfCells(order, K);
    var picked := Picked(hi, order, m);
    var prefix := order[..m];
    assert Distinct(prefix) by {
      forall i, j | 0 <= i < j < |prefix| ensures prefix[i] != prefix[j] {
        assert prefix[i] == order[i] && prefix[j] == order[j];
      }
    }
    assert forall j :: 0 <= j < m ==> picked[j] == RowsIn(cells, {prefix[j]});
    FlattenBins(cells, prefix, picked);
    FlattenLength(picked);
    assert SortedCounts(hi, order)[..m] == seq(|picked|, j requires 0 <= j < |picked| => |picked[j]|);
  }

  /** N is the total of the raw counts, in any order of the cells. */
  lemma {:induction false} TotalCount(cells: seq<int>, K: nat, hi: seq<seq<nat>>, order: seq<nat>)
    requires |hi| == K && forall c :: 0 <= c < K ==> hi[c] == RowsIn(cells, {c})
    requires multiset(order) == multiset(Range(K))
    ensures forall j :: 0 <= j < |order| ==> order[j] < |hi|
    ensures Sum(SortedCounts(hi, order)) == |RowsIn(cells, AllCells(K))|
  {
    PermutationOfCells(order, K);
    PrefixRows(cells, K, hi, order, K);
    var all := Flatten(Picked(hi, order, K));
    assert order[..K] == order && SortedCounts(hi, order)[..K] == SortedCounts(hi, order);
    assert |all| == |multiset(all)|;
  }

  /** With the per-cell lists of the binner and any density order, the
      selection fails exactly when there are no cells or the target exceeds
      the number N of in-range events. */
  lemma {:induction false} SelectionFailsIff(cells: seq<int>, K: nat, hi: seq<seq<nat>>, order: seq<nat>, n: int)
    requires |hi| == K && forall c :: 0 <= c < K ==> hi[c] == RowsIn(cells, {c})
    requires multiset(order) == multiset(Range(K))
    ensures forall j :: 0 <= j < |order| ==> order[j] < |hi|
    ensures SelectDensest(hi, order, n).Err? <==> K == 0 || n > |RowsIn(cells, AllCells(K))|
  {
    PermutationOfCells(order, K);
    TotalCount(cells, K, hi, order);
    CutIndexExists(SortedCounts(hi, order), n);
  }

  /** With no in-range events (N == 0, the case where np.sum(sH) is zero and
      the density field is NaN), the target is 0, the cut is the first cell of
      any order, and nothing is kept. */
  lemma {:induction false} NoEventsKeepsNothing(cells: seq<int>, K: nat, hi: seq<seq<nat>>, order: seq<nat>, fraction: real)
    requires |hi| == K && forall c :: 0 <= c < K ==> hi[c] == RowsIn(cells, {c})
    requires multiset(order) == multiset(Range(K)) && K > 0
    requires |RowsIn(cells, AllCells(K))| == 0
    ensures forall j :: 0 <= j < |order| ==> order[j] < |hi|
    ensures SelectDensest(hi, order, TargetCount(fraction, 0)) == Ok(Cut(0, []))
  {
    PermutationOfCells(order, K);
    var n := TargetCount(fraction, 0);
    assert n == 0;
    SelectionFailsIff(cells, K, hi, order, n);
    var svH := SortedCounts(hi, order);
    ZeroTargetCutsFirst(svH);
    var r := SelectDensest(hi, order, n).value;
    assert r.cut == 0;
    TotalCount(cells, K, hi, order);
    PrefixSumMonotone(svH, 1, K);
    assert svH[..K] == svH;
    assert |r.mask| == Sum(svH[..1]) <= Sum(svH) == 0;
  }

  /** A target of zero is reached by the first cell already. */
  lemma {:induction false} ZeroTargetCutsFirst(svH: seq<nat>)
    requires |svH| > 0
    ensures CutIndex(svH, 0) == Some(0)
  {
    var first := svH[..1];
    assert first[..0] == [];
    assert Sum(first) == Sum(first[..0]) + first[0];
    assert Cumsum(svH, 0) >= 0;
  }

  /** When the selection succeeds, its index list is exactly the in-range
      events whose cell is among the first Nidx + 1 cells of the order, in
      strictly increasing order. */
  lemma {:induction false} DensestRows(cells: seq<int>, K: nat, hi: seq<seq<nat>>, order: seq<nat>, n: int)
    requires |hi| == K && forall c :: 0 <= c < K ==> hi[c] == RowsIn(cells, {c})
    requires multiset(order) == multiset(Range(K)) && forall j :: 0 <= j < |order| ==> order[j] < K
    requires SelectDensest(hi, order, n).Ok?
    ensures var r := SelectDensest(hi, order, n).value;
      r.mask == RowsIn(cells, ElementsOf(order[..r.cut + 1]))
  {
    var r := SelectDensest(hi, order, n).value;
    var expected := RowsIn(cells, ElementsOf(order[..r.cut + 1]));
    PrefixRows(cells, K, hi, order, r.cut + 1);
    assert multiset(r.mask) == multiset(expected);
    assert NonDecreasing(r.mask);
    assert NonDecreasing(expected);
    SortedUnique(r.mask, expected);
  }

  /** The number of in-range events in the first m cells of the order. */
  function PrefixCount(cells: seq<int>, order: seq<nat>, m: nat): nat
    requires m <= |order|
  {
    |RowsIn(cells, ElementsOf(order[..m]))|
  }

  /** The kept prefix is the shortest one that reaches the target: every
      shorter prefix of the order holds fewer than n in-range events. */
  lemma {:induction false} CutIsShortest(cells: seq<int>, K: nat, hi: seq<seq<nat>>, order: seq<nat>, n: int)
    requires |hi| == K && forall c :: 0 <= c < K ==> hi[c] == RowsIn(cells, {c})
    requires multiset(order) == multiset(Range(K)) && forall j :: 0 <= j < |order| ==> order[j] < K
    requires SelectDensest(hi, order, n).Ok?
    ensures var r := SelectDensest(hi, order, n).value;
      forall m :: 1 <= m <= r.cut ==> PrefixCount(cells, order, m) < n
  {
    var r := SelectDensest(hi, order, n).value;
    var svH := SortedCounts(hi, order);
    forall m | 1 <= m <= r.cut
      ensures PrefixCount(cells, order, m) < n
    {
      assert Cumsum(svH, m - 1) < n;
      assert svH[..m - 1 + 1] == svH[..m];
      PrefixRows(cells, K, hi, order, m);
      var flat := Flatten(Picked(hi, order, m));
      var rows := RowsIn(cells, ElementsOf(order[..m]));
      assert |flat| == |multiset(flat)| == |multiset(rows)| == |rows|;
    }
  }

  /** For a fixed order, a larger target never gives a shorter cut or fewer
      events. */
  lemma {:induction false} TargetMonotoneCount(hi: seq<seq<nat>>, order: seq<nat>, n1: int, n2: int)
    requires forall j :: 0 <= j < |order| ==> order[j] < |hi|
    requires n1 <= n2 && SelectDensest(hi, order, n2).Ok?
    ensures SelectDensest(hi, order, n1).Ok?
    ensures SelectDensest(hi, order, n1).value.cut <= SelectDensest(hi, order, n2).value.cut
    ensures |SelectDensest(hi, order, n1).value.mask| <= |SelectDensest(hi, order, n2).value.mask|
  {
    var svH := SortedCounts(hi, order);
    CutIndexMonotone(svH, n1, n2);
    var r1, r2 := SelectDensest(hi, order, n1), SelectDensest(hi, order, n2);
    assert r1.Ok? && r1.value.cut == CutIndex(svH, n1).value;
    assert r2.value.cut == CutIndex(svH, n2).value;
    var c1, c2 := r1.value.cut, r2.value.cut;
    assert |r1.value.mask| == Sum(svH[..c1 + 1]) && |r2.value.mask| == Sum(svH[..c2 + 1]);
    PrefixSumMonotone(svH, c1 + 1, c2 + 1);
  }

  /** For a fixed order, a larger target never drops an event that a smaller
      one keeps, and never keeps fewer events. */
  lemma {:induction false} TargetMonotone(cells: seq<int>, K: nat, hi: seq<seq<nat>>, order: seq<nat>, n1: int, n2: int)
    requires |hi| == K && forall c :: 0 <= c < K ==> hi[c] == RowsIn(cells, {c})
    requires multiset(order) == multiset(Range(K)) && forall j :: 0 <= j < |order| ==> order[j] < K
    requires n1 <= n2 && SelectDensest(hi, order, n2).Ok?
    ensures SelectDensest(hi, order, n1).Ok?
    ensures var m1 := SelectDensest(hi, order, n1).value.mask;
            var m2 := SelectDensest(hi, order, n2).value.mask;
      |m1| <= |m2| && forall k :: k in m1 ==> k in m2
  {
    TargetMonotoneCount(hi, order, n1, n2);
    var c1 := SelectDensest(hi, order, n1).value.cut;
    var c2 := SelectDensest(hi, order, n2).value.cut;
    DensestRows(cells, K, hi, order, n1);
    DensestRows(cells, K, hi, order, n2);
    PrefixElements(order, c1 + 1, c2 + 1);
    RowsInSubset(cells, ElementsOf(order[..c1 + 1]), ElementsOf(order[..c2 + 1]));
  }

  /** Widening the set of cells never drops an event. */
  lemma {:induction false} RowsInSubset(cells: seq<int>, s1: set<int>, s2: set<int>)
    requires s1 <= s2
    ensures forall k :: k in RowsIn(cells, s1) ==> k in RowsIn(cells, s2)
  {
  }

  /** Raising the gate fraction never drops an event that was kept, and never
      keeps fewer events. */
  lemma {:induction false} FractionMonotone(cells: seq<int>, K: nat, hi: seq<seq<nat>>, order: seq<nat>,
                         total: nat, f1: real, f2: real)
    requires |hi| == K && forall c :: 0 <= c < K ==> hi[c] == RowsIn(cells, {c})
    requires multiset(order) == multiset(Range(K)) && forall j :: 0 <= j < |order| ==> order[j] < K
    requires f1 <= f2
    requires SelectDensest(hi, order, TargetCount(f2, total)).Ok?
    ensures SelectDensest(hi, order, TargetCount(f1, total)).Ok?
    ensures var m1 := SelectDensest(hi, order, TargetCount(f1, total)).value.mask;
            var m2 := SelectDensest(hi, order, TargetCount(f2, total)).value.mask;
      |m1| <= |m2| && forall k :: k in m1 ==> k in m2
  {
    TargetCountMonotone(f1, f2, total);
    TargetMonotone(cells, K, hi, order, TargetCount(f1, total), TargetCount(f2, total));
  }

  /** The kept cells are the densest ones: every cell in the prefix is at
      least as dense as every cell after it. */
  lemma {:induction false} DensestCellsKept(order: seq<nat>, density: seq<real>, cut: nat, c: nat, c': nat)
    requires IsDensityOrder(order, density) && cut < |order|
    requires c in order[..cut + 1] && c' < |density| && c' !in order[..cut + 1]
    ensures density[c] >= density[c']
  {
    PermutationOfCells(order, |density|);
    assert c' in order;
    var j :| 0 <= j <= cut && order[j] == c;
    var j' :| 0 <= j' < |order| && order[j'] == c';
  }

  /** Every kept event lies in a cell at least as dense as the cell of any
      in-range event that is gated out. */
  lemma {:induction false} DensestEventsKept(cells: seq<int>, hi: seq<seq<nat>>, order: seq<nat>, density: seq<real>, n: int)
    requires |hi| == |density| && forall c :: 0 <= c < |density| ==> hi[c] == RowsIn(cells, {c})
    requires forall k :: 0 <= k < |cells| ==> -1 <= cells[k] < |density|
    requires IsDensityOrder(order, density) && SelectDensest(hi, order, n).Ok?
    ensures var r := SelectDensest(hi, order, n).value;
      forall k :: 0 <= k < |cells| && k in r.mask ==> 0 <= cells[k] < |density|
    ensures var r := SelectDensest(hi, order, n).value;
      forall k, k' :: 0 <= k < |cells| && k in r.mask && 0 <= k' < |cells| && k' !in r.mask && cells[k'] != -1 ==>
        density[cells[k]] >= density[cells[k']]
  {
    var r := SelectDensest(hi, order, n).value;
    DensestRows(cells, |density|, hi, order, n);
    forall k, k' | 0 <= k < |cells| && k in r.mask && 0 <= k' < |cells| && k' !in r.mask && cells[k'] != -1
      ensures density[cells[k]] >= density[cells[k']]
    {
      DensestCellsKept(order, density, r.cut, cells[k], cells[k']);
    }
  }
}
