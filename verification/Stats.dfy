/** The column statistics `fillna` fills with: median and mean over reals, mode over any values. */
module Stats {
  import opened Frames

  // ---- median -------------------------------------------------------------

  function Insert(x: real, sorted: seq<real>): seq<real> {
    if sorted == [] || x <= sorted[0] then [x] + sorted else [sorted[0]] + Insert(x, sorted[1..])
  }

  function Sort(s: seq<real>): (r: seq<real>)
    ensures |r| == |s|
  {
    if s == [] then [] else
      InsertLength(s[0], Sort(s[1..]));
      Insert(s[0], Sort(s[1..]))
  }

  lemma {:induction false} InsertLength(x: real, sorted: seq<real>)
    ensures |Insert(x, sorted)| == |sorted| + 1
  {
    if sorted != [] && x > sorted[0] { InsertLength(x, sorted[1..]); }
  }

  /** The middle value of the sorted list, or the average of the two middle values. */
  function Median(s: seq<real>): real
    requires s != []
  {
    var t, n := Sort(s), |s|;
    if n % 2 == 1 then t[n / 2] else (t[n / 2 - 1] + t[n / 2]) / 2.0
  }

  function CountBelow(s: seq<real>, m: real): (n: nat)
    ensures n <= |s|
  {
    if s == [] then 0 else (if s[0] < m then 1 else 0) + CountBelow(s[1..], m)
  }

  function CountAbove(s: seq<real>, m: real): (n: nat)
    ensures n <= |s|
  {
    if s == [] then 0 else (if s[0] > m then 1 else 0) + CountAbove(s[1..], m)
  }

  ghost predicate Sorted(s: seq<real>) {
    forall i, j :: 0 <= i < j < |s| ==> s[i] <= s[j]
  }

  lemma {:induction false} InsertKeepsBound(x: real, sorted: seq<real>, low: real)
    requires low <= x && forall i :: 0 <= i < |sorted| ==> low <= sorted[i]
    ensures forall i :: 0 <= i < |Insert(x, sorted)| ==> low <= Insert(x, sorted)[i]
  {
    if sorted != [] && x > sorted[0] { InsertKeepsBound(x, sorted[1..], low); }
  }

  lemma {:induction false} InsertSorts(x: real, sorted: seq<real>)
    requires Sorted(sorted)
    ensures Sorted(Insert(x, sorted))
  {
    if sorted != [] && x > sorted[0] {
      InsertSorts(x, sorted[1..]);
      InsertKeepsBound(x, sorted[1..], sorted[0]);
    }
  }

  lemma {:induction false} InsertPermutes(x: real, sorted: seq<real>)
    ensures multiset(Insert(x, sorted)) == multiset(sorted) + multiset{x}
  {
    if sorted != [] && x > sorted[0] {
      InsertPermutes(x, sorted[1..]);
      assert sorted == [sorted[0]] + sorted[1..];
    }
  }

  lemma {:induction false} InsertCounts(x: real, sorted: seq<real>, m: real)
    ensures CountBelow(Insert(x, sorted), m) == CountBelow(sorted, m) + if x < m then 1 else 0
    ensures CountAbove(Insert(x, sorted), m) == CountAbove(sorted, m) + if x > m then 1 else 0
  {
    if sorted == [] || x <= sorted[0] {
      assert ([x] + sorted)[1..] == sorted;
    } else {
      InsertCounts(x, sorted[1..], m);
      var rest := Insert(x, sorted[1..]);
      assert ([sorted[0]] + rest)[1..] == rest;
    }
  }

  lemma {:induction false} SortSorts(s: seq<real>, m: real)
    ensures Sorted(Sort(s)) && multiset(Sort(s)) == multiset(s)
    ensures CountBelow(Sort(s), m) == CountBelow(s, m) && CountAbove(Sort(s), m) == CountAbove(s, m)
  {
    if s != [] {
      SortSorts(s[1..], m);
      InsertSorts(s[0], Sort(s[1..]));
      InsertPermutes(s[0], Sort(s[1..]));
      InsertCounts(s[0], Sort(s[1..]), m);
      assert s == [s[0]] + s[1..];
    }
  }

  /** In a sorted list the values below `m` come first and those above `m` last. */
  lemma {:induction false} SortedSplit(s: seq<real>, m: real, i: nat)
    requires Sorted(s) && i < |s|
    ensures s[i] < m <==> i < CountBelow(s, m)
    ensures s[i] > m <==> i >= |s| - CountAbove(s, m)
  {
    if i > 0 {
      SortedSplit(s[1..], m, i - 1);
      if s[0] >= m { NoneBelow(s[1..], m); }
      if s[0] > m { AllAbove(s[1..], m); }
    } else {
      if s[0] >= m { NoneBelow(s[1..], m); }
      if s[0] > m { AllAbove(s[1..], m); }
    }
  }

  lemma {:induction false} NoneBelow(s: seq<real>, m: real)
    requires forall i :: 0 <= i < |s| ==> s[i] >= m
    ensures CountBelow(s, m) == 0
  {
    if s != [] { NoneBelow(s[1..], m); }
  }

  lemma {:induction false} AllAbove(s: seq<real>, m: real)
    requires forall i :: 0 <= i < |s| ==> s[i] > m
    ensures CountAbove(s, m) == |s|
  {
    if s != [] { AllAbove(s[1..], m); }
  }

  /** At most half of the values lie on either side of the median. */
  lemma MedianBalances(s: seq<real>)
    requires s != []
    ensures 2 * CountBelow(s, Median(s)) <= |s| && 2 * CountAbove(s, Median(s)) <= |s|
  {
    var t, n, m := Sort(s), |s|, Median(s);
    SortSorts(s, m);
    SortedSplit(t, m, n / 2);
    if n % 2 == 0 {
      SortedSplit(t, m, n / 2 - 1);
      assert t[n / 2 - 1] <= t[n / 2];
    }
  }

  /** A value with fewer than half of the list on either side is the median. */
  lemma StrictBalanceIsMedian(s: seq<real>, m: real)
    requires 2 * CountBelow(s, m) < |s| && 2 * CountAbove(s, m) < |s|
    ensures Median(s) == m
  {
    var t, n := Sort(s), |s|;
    SortSorts(s, m);
    SortedSplit(t, m, n / 2);
    if n % 2 == 0 { SortedSplit(t, m, n / 2 - 1); }
  }

  /** The middle of the values in order, or halfway between the two middle ones. */
  ghost predicate IsMedian(xs: seq<real>, m: real) {
    exists t :: IsMiddleOf(xs, t, m)
  }

  ghost predicate IsMiddleOf(xs: seq<real>, t: seq<real>, m: real) {
    && |t| == |xs| > 0 && Sorted(t) && multiset(t) == multiset(xs)
    && m == (t[(|t| - 1) / 2] + t[|t| / 2]) / 2.0
  }

  lemma MiddleOf(t: seq<real>)
    requires t != []
    ensures (t[(|t| - 1) / 2] + t[|t| / 2]) / 2.0
         == if |t| % 2 == 1 then t[|t| / 2] else (t[|t| / 2 - 1] + t[|t| / 2]) / 2.0
  {
    if |t| % 2 == 1 {
      assert (|t| - 1) / 2 == |t| / 2;
    } else {
      assert (|t| - 1) / 2 == |t| / 2 - 1;
    }
  }

  lemma MedianIsMiddle(xs: seq<real>)
    requires xs != []
    ensures IsMedian(xs, Median(xs))
  {
    SortSorts(xs, 0.0);
    MiddleOf(Sort(xs));
    assert IsMiddleOf(xs, Sort(xs), Median(xs));
  }

  // ---- mean ---------------------------------------------------------------

  function Sum(s: seq<real>): real {
    if s == [] then 0.0 else s[0] + Sum(s[1..])
  }

  function Mean(s: seq<real>): real
    requires s != []
  {
    Sum(s) / |s| as real
  }

  /** The values' distances from `m`, with their signs, add up to nothing. */
  ghost predicate IsMean(xs: seq<real>, m: real) { xs != [] && Sum(Distances(xs, m)) == 0.0 }

  function Distances(xs: seq<real>, m: real): (r: seq<real>)
    ensures |r| == |xs|
  {
    seq(|xs|, i requires 0 <= i < |xs| => xs[i] - m)
  }

  function Times(k: nat, m: real): real {
    if k == 0 then 0.0 else Times(k - 1, m) + m
  }

  lemma {:induction false} TimesIsProduct(k: nat, m: real)
    ensures Times(k, m) == k as real * m
  {
    if k > 0 {
      TimesIsProduct(k - 1, m);
      var n := (k - 1) as real;
      assert k as real == n + 1.0;
      assert (n + 1.0) * m == n * m + m;
    }
  }

  /** A sum is what it is on nothing, on one value and on two lists. */
  lemma {:induction false} SumIsTotal(a: seq<real>, b: seq<real>, x: real)
    ensures Sum([]) == 0.0 && Sum([x]) == x
    ensures Sum(a + b) == Sum(a) + Sum(b)
  {
    if a == [] {
      assert a + b == b;
    } else {
      assert (a + b)[1..] == a[1..] + b;
      SumIsTotal(a[1..], b, x);
    }
  }

  lemma {:induction false} SumOfDistances(xs: seq<real>, m: real)
    ensures Sum(Distances(xs, m)) == Sum(xs) - Times(|xs|, m)
  {
    if xs != [] {
      SumOfDistances(xs[1..], m);
      assert Distances(xs, m)[1..] == Distances(xs[1..], m);
    }
  }

  lemma Product(n: real, sum: real, m: real)
    requires n != 0.0 && m == sum / n
    ensures n * m == sum
  {
  }

  lemma MeanTimes(xs: seq<real>)
    requires xs != []
    ensures Times(|xs|, Mean(xs)) == Sum(xs)
  {
    var n, sum, m := |xs| as real, Sum(xs), Mean(xs);
    Product(n, sum, m);
    TimesIsProduct(|xs|, m);
  }

  /** The mean balances the values: their distances from it add up to nothing, and no other number does that. */
  lemma MeanBalances(xs: seq<real>, m: real)
    requires xs != []
    ensures IsMean(xs, m) <==> m == Mean(xs)
  {
    SumOfDistances(xs, m);
    MeanTimes(xs);
    TimesApart(|xs|, m, Mean(xs));
  }

  lemma {:induction false} TimesApart(k: nat, a: real, b: real)
    ensures k > 0 ==> (Times(k, a) == Times(k, b) <==> a == b)
    ensures a < b ==> Times(k, a) <= Times(k, b)
    ensures b < a ==> Times(k, b) <= Times(k, a)
  {
    if k > 0 { TimesApart(k - 1, a, b); }
  }

  // ---- mode ---------------------------------------------------------------

  function CountOf(cells: seq<Cell>, v: Cell): (n: nat)
    ensures n <= |cells|
  {
    if cells == [] then 0 else (if cells[0] == v then 1 else 0) + CountOf(cells[1..], v)
  }

  /** No value is more frequent than `v`. */
  ghost predicate IsMode(cells: seq<Cell>, v: Cell) {
    v in cells && forall u :: u in cells ==> CountOf(cells, u) <= CountOf(cells, v)
  }

  lemma {:induction false} CountOfMember(cells: seq<Cell>, v: Cell)
    ensures CountOf(cells, v) > 0 <==> v in cells
  {
    if cells != [] { CountOfMember(cells[1..], v); }
  }

  /** The most frequent of the first `k` values, the earliest of several. */
  function BestOf(cells: seq<Cell>, k: nat): (v: Cell)
    requires 0 < k <= |cells|
    ensures v in cells[..k]
    ensures forall i :: 0 <= i < k ==> CountOf(cells, cells[i]) <= CountOf(cells, v)
  {
    if k == 1 then cells[0] else
      var v := BestOf(cells, k - 1);
      if CountOf(cells, cells[k - 1]) > CountOf(cells, v) then cells[k - 1] else v
  }

  /** `series.mode().first()`. Polars leaves the order of tied modes open; the model takes the earliest value. */
  function FirstMode(cells: seq<Cell>): (v: Cell)
    requires cells != []
    ensures IsMode(cells, v)
  {
    assert cells[..|cells|] == cells;
    BestOf(cells, |cells|)
  }
}
