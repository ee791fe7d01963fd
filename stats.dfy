/**
 * The statistics the verb checker shows over its plotting table: longest and
 * shortest root, mean root length, row count, the frequency ranking behind
 * the Zipf plot and the top-20 list, and the root-length histogram.
 */
module Stats {
  import opened Wrappers
  import opened Text

  /** One row of the plotting table. */
  datatype PlotRow = PlotRow(root: string, romanized: string, rootLength: int, frequency: int)

  /** The placeholder root the shortest-root statistic skips. */
  const Placeholder: string := "v"

  predicate IsPlaceholder(row: PlotRow) {
    Lower(Strip(row.root)) == Placeholder
  }

  /** The row mask of `df_no_v`: true where the row is kept. */
  function Kept(rows: seq<PlotRow>): (keep: seq<bool>)
    ensures |keep| == |rows|
  {
    if rows == [] then [] else Kept(rows[..|rows| - 1]) + [!IsPlaceholder(rows[|rows| - 1])]
  }

  /** A row is kept exactly when its stripped, lower-cased root is not the
      placeholder. */
  lemma {:induction false} KeptAt(rows: seq<PlotRow>, i: int)
    requires 0 <= i < |rows|
    ensures Kept(rows)[i] <==> !IsPlaceholder(rows[i])
  {
    var n := |rows| - 1;
    if i < n {
      KeptAt(rows[..n], i);
      assert rows[..n][i] == rows[i];
    }
  }

  predicate HasNonPlaceholder(rows: seq<PlotRow>) {
    true in Kept(rows)
  }

  /** The `root_length` column. */
  function Lengths(rows: seq<PlotRow>): (xs: seq<int>)
    ensures |xs| == |rows|
    ensures forall i :: 0 <= i < |rows| ==> xs[i] == rows[i].rootLength
  {
    if rows == [] then [] else Lengths(rows[..|rows| - 1]) + [rows[|rows| - 1].rootLength]
  }

  // ---- idxmax / idxmin --------------------------------------------------

  /** Position of the first maximum, as pandas' `idxmax` picks it. */
  function FirstMax(xs: seq<int>): (p: nat)
    requires |xs| > 0
    ensures p < |xs|
    ensures forall j :: 0 <= j < |xs| ==> xs[j] <= xs[p]
    ensures forall j :: 0 <= j < p ==> xs[j] < xs[p]
  {
    if |xs| == 1 then 0
    else
      var p := FirstMax(xs[..|xs| - 1]);
      if xs[|xs| - 1] > xs[p] then |xs| - 1 else p
  }

  /** Position of the first minimum, as pandas' `idxmin` picks it. */
  function FirstMin(xs: seq<int>): (p: nat)
    requires |xs| > 0
    ensures p < |xs|
    ensures forall j :: 0 <= j < |xs| ==> xs[p] <= xs[j]
    ensures forall j :: 0 <= j < p ==> xs[p] < xs[j]
  {
    if |xs| == 1 then 0
    else
      var p := FirstMin(xs[..|xs| - 1]);
      if xs[|xs| - 1] < xs[p] then |xs| - 1 else p
  }

  /** The row label of `longest`: a maximum root length over all rows, and
      no earlier row reaches it. */
  function LongestLabel(rows: seq<PlotRow>): (l: nat)
    requires |rows| > 0
    ensures l < |rows|
    ensures forall j :: 0 <= j < |rows| ==> rows[j].rootLength <= rows[l].rootLength
    ensures forall j :: 0 <= j < l ==> rows[j].rootLength < rows[l].rootLength
  {
    FirstMax(Lengths(rows))
  }

  // ---- the "v" filter ---------------------------------------------------

  /** Position of the first minimum among the positions `keep` marks, or
      `None` when it marks none. */
  function FirstMinWhere(xs: seq<int>, keep: seq<bool>): (p: Option<nat>)
    requires |keep| == |xs|
    ensures p.Some? <==> true in keep
    ensures p.Some? ==> p.value < |xs| && keep[p.value]
    ensures p.Some? ==> forall j :: 0 <= j < |xs| && keep[j] ==> xs[p.value] <= xs[j]
    ensures p.Some? ==> forall j :: 0 <= j < p.value && keep[j] ==> xs[p.value] < xs[j]
  {
    if xs == [] then None
    else
      var n := |xs| - 1;
      var r := FirstMinWhere(xs[..n], keep[..n]);
      assert keep == keep[..n] + [keep[n]];
      if !keep[n] then r
      else if r.None? || xs[n] < xs[r.value] then Some(n)
      else r
  }

  /** The label `df_no_v["root_length"].idxmin()` returns: the first kept
      row of least root length. `df_no_v` keeps the labels of the full
      table, so the result is a position in `rows`; `None` where `df_no_v`
      is empty and pandas raises. */
  function ShortestLabel(rows: seq<PlotRow>): (l: Option<nat>)
    ensures l.Some? <==> HasNonPlaceholder(rows)
    ensures l.Some? ==> l.value < |rows| && Kept(rows)[l.value]
    ensures l.Some? ==> forall j :: 0 <= j < |rows| && Kept(rows)[j] ==>
                          rows[l.value].rootLength <= rows[j].rootLength
    ensures l.Some? ==> forall j :: 0 <= j < l.value && Kept(rows)[j] ==>
                          rows[l.value].rootLength < rows[j].rootLength
  {
    FirstMinWhere(Lengths(rows), Kept(rows))
  }

  // ---- mean and total ---------------------------------------------------

  function Sum(xs: seq<int>): int {
    if xs == [] then 0 else Sum(xs[..|xs| - 1]) + xs[|xs| - 1]
  }

  /** pandas' `mean`, with `None` for the NaN of an empty column. */
  function Mean(xs: seq<int>): (r: Option<real>)
    ensures r.Some? <==> xs != []
  {
    if xs == [] then None else Some(Quotient(Sum(xs), |xs|))
  }

  /** The exact quotient of `sum` by a positive count. */
  function Quotient(sum: int, n: nat): (q: real)
    requires n > 0
    ensures q * (n as real) == sum as real
  {
    sum as real / (n as real)
  }

  /** The figures shown on the statistics page. */
  datatype Summary = Summary(longest: PlotRow, shortest: PlotRow, avgLength: real, totalVerbs: nat)

  /** app.py's module-level statistics, or `None` where pandas raises
      because no row is left once the placeholder rows are dropped. */
  function Summarize(rows: seq<PlotRow>): (s: Option<Summary>)
    ensures s.Some? <==> HasNonPlaceholder(rows)
  {
    match ShortestLabel(rows)
    case None => None
    case Some(short) =>
      Some(Summary(rows[LongestLabel(rows)], rows[short], Mean(Lengths(rows)).value, |rows|))
  }

  /** The total counts every row, placeholders included, and the mean
      root length is the sum of all root lengths over that count. */
  lemma SummarizeTotals(rows: seq<PlotRow>)
    requires HasNonPlaceholder(rows)
    ensures Summarize(rows).value.totalVerbs == |rows|
    ensures |rows| > 0 && Summarize(rows).value.avgLength == Quotient(Sum(Lengths(rows)), |rows|)
  {
  }

  /** `longest` is a row of greatest root length among all rows;
      `shortest` is a row that is not the placeholder and whose root length
      no other such row undercuts. */
  lemma SummarizeExtremes(rows: seq<PlotRow>)
    requires HasNonPlaceholder(rows)
    ensures var s := Summarize(rows).value;
            && (exists i :: 0 <= i < |rows| && rows[i] == s.longest)
            && (forall j :: 0 <= j < |rows| ==> rows[j].rootLength <= s.longest.rootLength)
            && (exists i :: 0 <= i < |rows| && rows[i] == s.shortest && !IsPlaceholder(rows[i]))
            && (forall j :: 0 <= j < |rows| && !IsPlaceholder(rows[j]) ==> s.shortest.rootLength <= rows[j].rootLength)
  {
    var l := ShortestLabel(rows).value;
    var s := Summarize(rows).value;
    assert s.shortest == rows[l];
    KeptAt(rows, l);
    forall j | 0 <= j < |rows| && !IsPlaceholder(rows[j])
      ensures s.shortest.rootLength <= rows[j].rootLength
    {
      KeptAt(rows, j);
    }
    assert rows[LongestLabel(rows)] == s.longest;
  }

  lemma {:induction false} SumBounds(xs: seq<int>, lo: int, hi: int)
    requires forall i :: 0 <= i < |xs| ==> lo <= xs[i] <= hi
    ensures |xs| * lo <= Sum(xs) <= |xs| * hi
  {
    if xs != [] {
      var n := |xs| - 1;
      SumBounds(xs[..n], lo, hi);
      assert (n + 1) * lo == n * lo + lo && (n + 1) * hi == n * hi + hi;
    }
  }

  /** The mean root length lies between the least root length of all rows
      (placeholders included) and the longest. */
  lemma MeanBetweenExtremes(rows: seq<PlotRow>)
    requires |rows| > 0
    ensures var xs := Lengths(rows);
            xs[FirstMin(xs)] as real <= Mean(xs).value <= rows[LongestLabel(rows)].rootLength as real
  {
    var xs := Lengths(rows);
    var lo, hi := xs[FirstMin(xs)], rows[LongestLabel(rows)].rootLength;
    LengthSumBounds(rows);
    QuotientBetween(Sum(xs), |xs|, lo, hi);
  }

  lemma LengthSumBounds(rows: seq<PlotRow>)
    requires |rows| > 0
    ensures var xs := Lengths(rows);
            xs[FirstMin(xs)] * |xs| <= Sum(xs) <= rows[LongestLabel(rows)].rootLength * |xs|
  {
    var xs := Lengths(rows);
    var lo, hi := xs[FirstMin(xs)], rows[LongestLabel(rows)].rootLength;
    assert forall i :: 0 <= i < |xs| ==> lo <= xs[i] <= hi;
    SumBounds(xs, lo, hi);
  }

  lemma QuotientBetween(sum: int, n: nat, lo: int, hi: int)
    requires n > 0 && lo * n <= sum <= hi * n
    ensures lo as real <= Quotient(sum, n) <= hi as real
  {
    var q, r := Quotient(sum, n), n as real;
    assert (lo * n) as real == (lo as real) * r;
    assert (hi * n) as real == (hi as real) * r;
    assert (q - lo as real) * r >= 0.0;
    assert (hi as real - q) * r >= 0.0;
  }

  /** Appending a placeholder row leaves `shortest` alone but counts in
      the total and in the mean like any other row. */
  lemma PlaceholderSkippedOnlyByShortest(rows: seq<PlotRow>, v: PlotRow)
    requires HasNonPlaceholder(rows) && IsPlaceholder(v)
    ensures Summarize(rows + [v]).Some? && Summarize(rows).Some?
    ensures Summarize(rows + [v]).value.shortest == Summarize(rows).value.shortest
    ensures Summarize(rows + [v]).value.totalVerbs == |rows| + 1
    ensures Summarize(rows + [v]).value.avgLength == Mean(Lengths(rows) + [v.rootLength]).value
  {
    var both := rows + [v];
    var n := |rows|;
    assert both[..n] == rows;
    assert Kept(both) == Kept(rows) + [false];
    assert Lengths(both) == Lengths(rows) + [v.rootLength];
    assert Kept(both)[..n] == Kept(rows);
    assert ShortestLabel(both) == ShortestLabel(rows);
  }

  // ---- ranking ----------------------------------------------------------

  predicate NonIncreasing(s: seq<PlotRow>) {
    forall i, j :: 0 <= i < j < |s| ==> s[i].frequency >= s[j].frequency
  }

  /** Places `x` in front of the first row of lower frequency. */
  function Insert(x: PlotRow, s: seq<PlotRow>): (r: seq<PlotRow>)
    requires NonIncreasing(s)
    ensures |r| == |s| + 1
    ensures multiset(r) == multiset(s) + multiset{x}
    ensures NonIncreasing(r)
  {
    if s == [] then [x]
    else if x.frequency >= s[0].frequency then
      HeadDominates(x, s);
      [x] + s
    else
      var t := Insert(x, s[1..]);
      assert s == [s[0]] + s[1..];
      forall y | y in t ensures s[0].frequency >= y.frequency {
        assert y in multiset(t);
        if y != x {
          assert y in multiset(s[1..]);
        }
      }
      HeadDominates(s[0], t);
      [s[0]] + t
  }

  lemma HeadDominates(h: PlotRow, t: seq<PlotRow>)
    requires NonIncreasing(t)
    requires forall y :: y in t ==> h.frequency >= y.frequency
    ensures NonIncreasing([h] + t)
  {
    var r := [h] + t;
    forall i, j | 0 <= i < j < |r| ensures r[i].frequency >= r[j].frequency {
      assert r[j] == t[j - 1];
      if i > 0 {
        assert r[i] == t[i - 1];
      }
    }
  }

  /** `sort_values(by="frequency", ascending=False)`: the same rows,
      highest frequency first. */
  function SortByFrequency(rows: seq<PlotRow>): (r: seq<PlotRow>)
    ensures |r| == |rows|
    ensures multiset(r) == multiset(rows)
    ensures NonIncreasing(r)
  {
    if rows == [] then []
    else
      assert rows == [rows[0]] + rows[1..];
      Insert(rows[0], SortByFrequency(rows[1..]))
  }

  /** A row of `df_sorted` with its `rank` column. */
  datatype RankedRow = RankedRow(rank: nat, row: PlotRow)

  /** The Zipf table: the sorted rows with rank = position + 1. */
  function Ranked(rows: seq<PlotRow>): (r: seq<RankedRow>)
    ensures |r| == |rows|
    ensures forall i :: 0 <= i < |r| ==> r[i].rank == i + 1 && r[i].row == SortByFrequency(rows)[i]
  {
    var sorted := SortByFrequency(rows);
    seq(|sorted|, i requires 0 <= i < |sorted| => RankedRow(i + 1, sorted[i]))
  }

  /** Ranks run 1, 2, ..., n, so each has a logarithm, and a higher rank
      never has a higher frequency. */
  lemma RankedIsZipfOrder(rows: seq<PlotRow>)
    ensures forall i :: 0 <= i < |Ranked(rows)| ==> 1 <= Ranked(rows)[i].rank <= |rows|
    ensures forall i, j :: 0 <= i < j < |Ranked(rows)| ==>
              Ranked(rows)[i].rank < Ranked(rows)[j].rank &&
              Ranked(rows)[i].row.frequency >= Ranked(rows)[j].row.frequency
  {
    var sorted := SortByFrequency(rows);
    assert NonIncreasing(sorted);
  }

  /** Number of rows on the top-frequency page. */
  const TopCount: nat := 20

  /** `sort_values(...).head(n)`. */
  function TopN(rows: seq<PlotRow>, n: nat): (r: seq<PlotRow>)
    ensures |r| == if n < |rows| then n else |rows|
    ensures r == SortByFrequency(rows)[..|r|]
  {
    var sorted := SortByFrequency(rows);
    sorted[..if n < |rows| then n else |rows|]
  }

  function Top20(rows: seq<PlotRow>): (r: seq<PlotRow>)
    ensures |r| == if |rows| < TopCount then |rows| else TopCount
  {
    TopN(rows, TopCount)
  }

  /** The top-20 list has min(20, n) rows drawn from the table, highest
      frequency first, and no row left out has a higher frequency than a
      row kept. */
  lemma Top20IsHighest(rows: seq<PlotRow>)
    ensures |Top20(rows)| == if |rows| < 20 then |rows| else 20
    ensures NonIncreasing(Top20(rows))
    ensures multiset(Top20(rows)) <= multiset(rows)
    ensures forall x, y :: x in Top20(rows) && y in multiset(rows) - multiset(Top20(rows)) ==> x.frequency >= y.frequency
  {
    var sorted := SortByFrequency(rows);
    var top := Top20(rows);
    var rest := sorted[|top|..];
    assert sorted == top + rest;
    assert multiset(rows) == multiset(top) + multiset(rest);
    assert multiset(rows) - multiset(top) == multiset(rest);
    SplitDominates(top, rest);
  }

  /** Cutting a highest-first sequence in two leaves a highest-first front
      none of whose rows has a lower frequency than a row of the back. */
  lemma SplitDominates(front: seq<PlotRow>, back: seq<PlotRow>)
    requires NonIncreasing(front + back)
    ensures NonIncreasing(front)
    ensures forall x, y :: x in front && y in back ==> x.frequency >= y.frequency
  {
    var s := front + back;
    forall i, j | 0 <= i < j < |front| ensures front[i].frequency >= front[j].frequency {
      assert s[i] == front[i] && s[j] == front[j];
    }
    forall x, y | x in front && y in back ensures x.frequency >= y.frequency {
      var i :| 0 <= i < |front| && front[i] == x;
      var j :| 0 <= j < |back| && back[j] == y;
      assert s[i] == x && s[|front| + j] == y;
    }
  }

  // ---- histogram ---------------------------------------------------------

  /** Number of rows whose root length lies in [lo, hi]. */
  function CountBetween(rows: seq<PlotRow>, lo: int, hi: int): nat {
    if rows == [] then 0
    else
      var last := rows[|rows| - 1];
      CountBetween(rows[..|rows| - 1], lo, hi) + (if lo <= last.rootLength <= hi then 1 else 0)
  }

  /** The bar heights of the length histogram with bin edges
      1, 2, ..., max + 1: bar b counts the rows of length b + 1. */
  function Histogram(rows: seq<PlotRow>): (h: seq<nat>)
    requires |rows| > 0
    ensures |h| == if rows[LongestLabel(rows)].rootLength > 0 then rows[LongestLabel(rows)].rootLength else 0
    ensures forall b :: 0 <= b < |h| ==> h[b] == CountBetween(rows, b + 1, b + 1)
  {
    var top := rows[LongestLabel(rows)].rootLength;
    Bars(rows, if top > 0 then top else 0)
  }

  function Bars(rows: seq<PlotRow>, m: nat): (h: seq<nat>)
    ensures |h| == m
    ensures forall b :: 0 <= b < m ==> h[b] == CountBetween(rows, b + 1, b + 1)
  {
    if m == 0 then [] else Bars(rows, m - 1) + [CountBetween(rows, m, m)]
  }

  lemma {:induction false} CountSplit(rows: seq<PlotRow>, lo: int, hi: int)
    requires lo <= hi
    ensures CountBetween(rows, lo, hi) == CountBetween(rows, lo, hi - 1) + CountBetween(rows, hi, hi)
  {
    if rows != [] {
      CountSplit(rows[..|rows| - 1], lo, hi);
    }
  }

  lemma {:induction false} BarsSum(rows: seq<PlotRow>, m: nat)
    ensures Sum(Bars(rows, m)) == CountBetween(rows, 1, m)
  {
    if m == 0 {
      CountEmptyRange(rows);
    } else {
      BarsSum(rows, m - 1);
      var h := Bars(rows, m);
      assert h[..m - 1] == Bars(rows, m - 1);
      CountSplit(rows, 1, m);
    }
  }

  lemma {:induction false} CountEmptyRange(rows: seq<PlotRow>)
    ensures CountBetween(rows, 1, 0) == 0
  {
    if rows != [] {
      CountEmptyRange(rows[..|rows| - 1]);
    }
  }

  lemma {:induction false} CountAll(rows: seq<PlotRow>, lo: int, hi: int)
    requires forall i :: 0 <= i < |rows| ==> lo <= rows[i].rootLength <= hi
    ensures CountBetween(rows, lo, hi) == |rows|
  {
    if rows != [] {
      CountAll(rows[..|rows| - 1], lo, hi);
    }
  }

  /** Every row of root length at least 1 falls in exactly one bar, so
      when all lengths are at least 1 the bars add up to the row count. */
  lemma HistogramTotal(rows: seq<PlotRow>)
    requires |rows| > 0
    requires forall i :: 0 <= i < |rows| ==> rows[i].rootLength >= 1
    ensures Sum(Histogram(rows)) == |rows|
  {
    var top := rows[LongestLabel(rows)].rootLength;
    BarsSum(rows, top);
    CountAll(rows, 1, top);
  }
}
