/** The arithmetic and ordering of `summary()` (lib/index.js, lines 80-103),
    on exact rationals instead of IEEE doubles. */
module Aggregate {
  import opened Wrappers

  /** One entry of a `timespans` list: a duration in nanoseconds, or the
      `false` that `requireTime` returns after a caught failure. In `sum + time`
      that `false` counts as 0. */
  datatype Sample = Ns(ns: nat) | Failed

  function Value(s: Sample): nat {
    match s
    case Ns(d) => d
    case Failed => 0
  }

  /** `loadTimes.reduce((sum, time) => sum + time, 0)`. */
  function Sum(xs: seq<Sample>): nat {
    if xs == [] then 0 else Sum(xs[..|xs| - 1]) + Value(xs[|xs| - 1])
  }

  /** `loadTime / loadTimes.length`. */
  function Average(xs: seq<Sample>): real
    requires |xs| > 0
  {
    Sum(xs) as real / |xs| as real
  }

  /** One entry of the `averages` Map. */
  datatype Entry = Entry(name: string, avg: real)

  /** Every key of the Map's order has a non-empty list. */
  ghost predicate Complete(order: seq<string>, spans: map<string, seq<Sample>>) {
    forall k :: k in order ==> k in spans && |spans[k]| > 0
  }

  /** The `averages` Map, in the `timespans` iteration order. */
  function Averages(order: seq<string>, spans: map<string, seq<Sample>>): (r: seq<Entry>)
    requires Complete(order, spans)
    ensures |r| == |order|
    ensures forall i :: 0 <= i < |order| ==> r[i] == Entry(order[i], Average(spans[order[i]]))
  {
    if order == [] then []
    else Averages(order[..|order| - 1], spans) + [Entry(order[|order| - 1], Average(spans[order[|order| - 1]]))]
  }

  /** Every raw sample of every module, module after module. */
  function AllSamples(order: seq<string>, spans: map<string, seq<Sample>>): seq<Sample>
    requires forall k :: k in order ==> k in spans
  {
    if order == [] then [] else AllSamples(order[..|order| - 1], spans) + spans[order[|order| - 1]]
  }

  lemma {:induction false} SumConcat(a: seq<Sample>, b: seq<Sample>)
    ensures Sum(a + b) == Sum(a) + Sum(b)
  {
    if b != [] {
      SumConcat(a, b[..|b| - 1]);
      assert (a + b)[..|a + b| - 1] == a + b[..|b| - 1];
    } else {
      assert a + b == a;
    }
  }

  ghost predicate Sorted(es: seq<Entry>) {
    forall i, j :: 0 <= i < j < |es| ==> es[i].avg <= es[j].avg
  }

  /** Places `e` after every entry whose average is at most its own. */
  function Insert(e: Entry, xs: seq<Entry>): (r: seq<Entry>)
    ensures multiset(r) == multiset(xs) + multiset{e}
  {
    if xs == [] then [e]
    else if xs[|xs| - 1].avg <= e.avg then xs + [e]
    else
      assert xs == xs[..|xs| - 1] + [xs[|xs| - 1]];
      Insert(e, xs[..|xs| - 1]) + [xs[|xs| - 1]]
  }

  /** `[...averages.entries()].sort((a, b) => a[1] - b[1])`: a stable sort, here
      an insertion sort that takes the entries front to back. */
  function SortByAverage(es: seq<Entry>): seq<Entry> {
    if es == [] then [] else Insert(es[|es| - 1], SortByAverage(es[..|es| - 1]))
  }

  /** The entries whose average is `v`, in their order. */
  function WithAverage(es: seq<Entry>, v: real): seq<Entry> {
    if es == [] then []
    else WithAverage(es[..|es| - 1], v) + (if es[|es| - 1].avg == v then [es[|es| - 1]] else [])
  }

  /** `sorted.reduce((sum, [, value]) => sum + value, 0)`. */
  function SumAverages(es: seq<Entry>): real {
    if es == [] then 0.0 else SumAverages(es[..|es| - 1]) + es[|es| - 1].avg
  }

  /** `(val / averageLoadTime) * 100`; `None` is the NaN of 0 / 0. */
  function Percent(v: real, total: real): Option<real> {
    if total == 0.0 then None else Some(v / total * 100.0)
  }

  /** One line of the table, before formatting. */
  datatype Row = Row(name: string, average: real, percent: Option<real>)

  function Rows(es: seq<Entry>, total: real): seq<Row> {
    if es == [] then []
    else Rows(es[..|es| - 1], total) + [Row(es[|es| - 1].name, es[|es| - 1].avg, Percent(es[|es| - 1].avg, total))]
  }

  /** What `summary()` prints: the rows, the run count, the "average load time"
      (shown only for more than one run) and the total load time. */
  datatype Report = Report(rows: seq<Row>, runs: nat, averageLoadTime: real, showsAverage: bool, totalLoadTime: nat)

  function Summarize(order: seq<string>, spans: map<string, seq<Sample>>, runs: nat): Report
    requires Complete(order, spans)
  {
    var sorted := SortByAverage(Averages(order, spans));
    var averageLoadTime := SumAverages(sorted);
    Report(Rows(sorted, averageLoadTime), runs, averageLoadTime, runs > 1, Sum(AllSamples(order, spans)))
  }

  // ----- the sort -----

  lemma {:induction false} InsertSorted(e: Entry, xs: seq<Entry>)
    requires Sorted(xs)
    ensures Sorted(Insert(e, xs))
  {
    if xs != [] && xs[|xs| - 1].avg > e.avg {
      var init := xs[..|xs| - 1];
      var last := xs[|xs| - 1];
      InsertSorted(e, init);
      var r0 := Insert(e, init);
      forall i | 0 <= i < |r0| ensures r0[i].avg <= last.avg {
        assert r0[i] in multiset(r0);
        assert r0[i] in init || r0[i] == e;
      }
    }
  }

  lemma {:induction false} SortSorted(es: seq<Entry>)
    ensures Sorted(SortByAverage(es))
  {
    if es != [] {
      SortSorted(es[..|es| - 1]);
      InsertSorted(es[|es| - 1], SortByAverage(es[..|es| - 1]));
    }
  }

  lemma {:induction false} SortPermutes(es: seq<Entry>)
    ensures multiset(SortByAverage(es)) == multiset(es)
  {
    if es != [] {
      SortPermutes(es[..|es| - 1]);
      assert es == es[..|es| - 1] + [es[|es| - 1]];
    }
  }

  lemma {:induction false} WithAverageConcat(a: seq<Entry>, b: seq<Entry>, v: real)
    ensures WithAverage(a + b, v) == WithAverage(a, v) + WithAverage(b, v)
  {
    if b == [] {
      assert a + b == a;
    } else {
      WithAverageConcat(a, b[..|b| - 1], v);
      assert (a + b)[..|a + b| - 1] == a + b[..|b| - 1];
    }
  }

  lemma {:induction false} InsertStable(e: Entry, xs: seq<Entry>, v: real)
    ensures WithAverage(Insert(e, xs), v) == WithAverage(xs, v) + (if e.avg == v then [e] else [])
  {
    if xs == [] {
      WithAverageOne(e, v);
      assert [] + WithAverage([e], v) == WithAverage([e], v);
    } else if xs[|xs| - 1].avg <= e.avg {
      assert Insert(e, xs) == xs + [e];
      WithAverageConcat(xs, [e], v);
      WithAverageOne(e, v);
    } else {
      InsertStable(e, xs[..|xs| - 1], v);
      InsertStableShift(e, xs, v);
    }
  }

  /** The step of `InsertStable` where `e` moves past the last entry. */
  lemma InsertStableShift(e: Entry, xs: seq<Entry>, v: real)
    requires xs != [] && xs[|xs| - 1].avg > e.avg
    requires WithAverage(Insert(e, xs[..|xs| - 1]), v) ==
      WithAverage(xs[..|xs| - 1], v) + (if e.avg == v then [e] else [])
    ensures WithAverage(Insert(e, xs), v) == WithAverage(xs, v) + (if e.avg == v then [e] else [])
  {
    var init := xs[..|xs| - 1];
    var last := xs[|xs| - 1];
    var mid := Insert(e, init);
    var w := WithAverage(init, v);
    var here := if e.avg == v then [e] else [];
    var tail := if last.avg == v then [last] else [];
    assert Insert(e, xs) == mid + [last];
    WithAverageConcat(mid, [last], v);
    WithAverageOne(last, v);
    assert WithAverage(Insert(e, xs), v) == (w + here) + tail;
    assert WithAverage(xs, v) == w + tail;
    assert here == [] || tail == [];
    ShiftEmpty(w, here, tail);
  }

  lemma ShiftEmpty(w: seq<Entry>, here: seq<Entry>, tail: seq<Entry>)
    requires here == [] || tail == []
    ensures (w + here) + tail == (w + tail) + here
  {
    if here == [] {
      assert w + here == w;
      assert (w + tail) + here == w + tail;
    } else {
      assert (w + here) + tail == w + here;
      assert w + tail == w;
    }
  }

  lemma WithAverageOne(x: Entry, v: real)
    ensures WithAverage([x], v) == if x.avg == v then [x] else []
  {
    assert [x][..0] == [];
  }


  /** Stability: the entries that share an average keep their relative order. */
  lemma {:induction false} SortStable(es: seq<Entry>, v: real)
    ensures WithAverage(SortByAverage(es), v) == WithAverage(es, v)
  {
    if es != [] {
      SortStable(es[..|es| - 1], v);
      InsertStable(es[|es| - 1], SortByAverage(es[..|es| - 1]), v);
    }
  }

  lemma {:induction false} InsertSum(e: Entry, xs: seq<Entry>)
    ensures SumAverages(Insert(e, xs)) == SumAverages(xs) + e.avg
  {
    if xs != [] && xs[|xs| - 1].avg > e.avg {
      InsertSum(e, xs[..|xs| - 1]);
    }
  }

  /** Sorting does not change the sum of the averages. */
  lemma {:induction false} SortKeepsSum(es: seq<Entry>)
    ensures SumAverages(SortByAverage(es)) == SumAverages(es)
  {
    if es != [] {
      SortKeepsSum(es[..|es| - 1]);
      InsertSum(es[|es| - 1], SortByAverage(es[..|es| - 1]));
    }
  }

  // ----- percentages -----

  lemma {:induction false} PercentSum(es: seq<Entry>, total: real)
    requires total != 0.0
    ensures var rows := Rows(es, total);
      SumPercents(rows) == SumAverages(es) / total * 100.0
  {
    if es != [] {
      var init := es[..|es| - 1];
      var a := es[|es| - 1].avg;
      var rows := Rows(es, total);
      PercentSum(init, total);
      assert rows == Rows(init, total) + [Row(es[|es| - 1].name, a, Some(a / total * 100.0))];
      assert rows[..|rows| - 1] == Rows(init, total);
      assert SumPercents(rows) == SumPercents(Rows(init, total)) + a / total * 100.0;
      assert SumAverages(es) == SumAverages(init) + a;
      PercentSplit(SumAverages(init), a, total);
    }
  }

  lemma PercentSplit(s: real, a: real, t: real)
    requires t != 0.0
    ensures s / t * 100.0 + a / t * 100.0 == (s + a) / t * 100.0
  {
    assert (s + a) / t == s / t + a / t;
  }

  /** The sum of the percentage column; a NaN cell adds nothing. */
  function SumPercents(rows: seq<Row>): real {
    if rows == [] then 0.0
    else SumPercents(rows[..|rows| - 1]) + (match rows[|rows| - 1].percent case Some(p) => p case None => 0.0)
  }

  lemma {:induction false} EntryBelowSum(es: seq<Entry>, i: nat)
    requires forall k :: 0 <= k < |es| ==> es[k].avg >= 0.0
    requires i < |es|
    ensures 0.0 <= es[i].avg <= SumAverages(es)
  {
    if i < |es| - 1 {
      EntryBelowSum(es[..|es| - 1], i);
    } else {
      SumNonNegative(es[..|es| - 1]);
    }
  }

  lemma {:induction false} SumNonNegative(es: seq<Entry>)
    requires forall k :: 0 <= k < |es| ==> es[k].avg >= 0.0
    ensures SumAverages(es) >= 0.0
  {
    if es != [] {
      SumNonNegative(es[..|es| - 1]);
    }
  }

  lemma {:induction false} RowsAt(es: seq<Entry>, total: real, i: nat)
    requires i < |es|
    ensures |Rows(es, total)| == |es|
    ensures Rows(es, total)[i] == Row(es[i].name, es[i].avg, Percent(es[i].avg, total))
  {
    if i < |es| - 1 {
      RowsAt(es[..|es| - 1], total, i);
    } else if |es| > 1 {
      RowsAt(es[..|es| - 1], total, 0);
    }
  }

  /** Row `i` is entry `i` with its percentage. */
  lemma RowsShape(es: seq<Entry>, total: real)
    ensures var rows := Rows(es, total);
      && |rows| == |es|
      && forall i :: 0 <= i < |es| ==> rows[i] == Row(es[i].name, es[i].avg, Percent(es[i].avg, total))
  {
    if |es| > 0 {
      RowsAt(es, total, 0);
    }
    forall i | 0 <= i < |es| ensures Rows(es, total)[i] == Row(es[i].name, es[i].avg, Percent(es[i].avg, total)) {
      RowsAt(es, total, i);
    }
  }

  lemma PercentBound(a: real, total: real)
    requires 0.0 <= a <= total && total > 0.0
    ensures 0.0 <= a / total * 100.0 <= 100.0
  {
    DivMono(a, total, total);
    DivMono(0.0, a, total);
    assert total / total == 1.0;
  }

  lemma SelfPercent(t: real)
    requires t != 0.0
    ensures t / t * 100.0 == 100.0
  {
    assert t / t == 1.0;
  }

  lemma DivMono(x: real, y: real, c: real)
    requires x <= y && c > 0.0
    ensures x / c <= y / c
  {
    assert y / c - x / c == (y - x) / c;
  }

  /** The percentage column over entries with non-negative averages, taken
      against the sum of those averages. */
  lemma PercentColumn(es: seq<Entry>)
    requires forall k :: 0 <= k < |es| ==> es[k].avg >= 0.0
    ensures var total := SumAverages(es);
      var rows := Rows(es, total);
      && |rows| == |es|
      && (total == 0.0 ==> forall i :: 0 <= i < |rows| ==> rows[i].percent == None)
      && (total != 0.0 ==>
            SumPercents(rows) == 100.0 &&
            forall i :: 0 <= i < |rows| ==> rows[i].percent.Some? && 0.0 <= rows[i].percent.value <= 100.0)
  {
    var total := SumAverages(es);
    var rows := Rows(es, total);
    RowsShape(es, total);
    if total != 0.0 {
      PercentSum(es, total);
      SelfPercent(total);
      SumNonNegative(es);
      forall i | 0 <= i < |es| ensures rows[i].percent.Some? && 0.0 <= rows[i].percent.value <= 100.0 {
        EntryBelowSum(es, i);
        PercentBound(es[i].avg, total);
      }
    }
  }

  /** The sort: ascending, a permutation, stable, and sum-preserving. */
  lemma SortSpec(es: seq<Entry>)
    ensures var sorted := SortByAverage(es);
      && |sorted| == |es|
      && Sorted(sorted)
      && multiset(sorted) == multiset(es)
      && (forall v :: WithAverage(sorted, v) == WithAverage(es, v))
      && SumAverages(sorted) == SumAverages(es)
  {
    var sorted := SortByAverage(es);
    SortSorted(es);
    SortPermutes(es);
    forall v ensures WithAverage(sorted, v) == WithAverage(es, v) {
      SortStable(es, v);
    }
    SortKeepsSum(es);
    assert |sorted| == |es| by {
      assert |multiset(sorted)| == |multiset(es)|;
    }
  }

  // ----- the report -----

  lemma AverageNonNegative(xs: seq<Sample>)
    requires |xs| > 0
    ensures Average(xs) >= 0.0
  {
    assert Sum(xs) as real >= 0.0;
  }

  /** The sorted averages are non-negative, since every sample is. */
  lemma SortedNonNegative(order: seq<string>, spans: map<string, seq<Sample>>)
    requires Complete(order, spans)
    ensures var sorted := SortByAverage(Averages(order, spans));
      forall k :: 0 <= k < |sorted| ==> sorted[k].avg >= 0.0
  {
    var es := Averages(order, spans);
    var sorted := SortByAverage(es);
    SortPermutes(es);
    forall i | 0 <= i < |es| ensures es[i].avg >= 0.0 {
      AverageNonNegative(spans[order[i]]);
    }
    assert forall e :: e in es ==> e.avg >= 0.0;
    forall k | 0 <= k < |sorted| ensures sorted[k].avg >= 0.0 {
      assert sorted[k] in multiset(es);
    }
  }

  /** The rows of the table: one per module, holding that module's average
      (sum over count), ascending, a rearrangement of the `averages` entries
      in which the entries that tie keep their `timespans` order. */
  lemma SummaryRows(order: seq<string>, spans: map<string, seq<Sample>>, runs: nat)
    requires Complete(order, spans)
    ensures var rep := Summarize(order, spans, runs);
      var es := Averages(order, spans);
      var sorted := SortByAverage(es);
      && |rep.rows| == |sorted| == |order|
      && multiset(sorted) == multiset(es)
      && (forall v :: WithAverage(sorted, v) == WithAverage(es, v))
      && (forall i :: 0 <= i < |rep.rows| ==>
            rep.rows[i].name == sorted[i].name && rep.rows[i].average == sorted[i].avg)
      && (forall i, j :: 0 <= i < j < |rep.rows| ==> rep.rows[i].average <= rep.rows[j].average)
  {
    var es := Averages(order, spans);
    var sorted := SortByAverage(es);
    var rows := Summarize(order, spans, runs).rows;
    SortSpec(es);
    assert rows == Rows(sorted, SumAverages(sorted));
    if |sorted| > 0 {
      RowsAt(sorted, SumAverages(sorted), 0);
    }
    forall i | 0 <= i < |sorted| ensures rows[i].name == sorted[i].name && rows[i].average == sorted[i].avg {
      RowsAt(sorted, SumAverages(sorted), i);
    }
  }

  /** The figures below the table: the "average load time" is the SUM of the
      per-module averages; when it is positive every percentage lies in
      [0, 100] and they add up to 100, and when it is 0 every percentage is
      NaN; the total load time is the sum of every raw sample; the average
      line is shown only for more than one run. */
  lemma SummaryFigures(order: seq<string>, spans: map<string, seq<Sample>>, runs: nat)
    requires Complete(order, spans)
    ensures var rep := Summarize(order, spans, runs);
      && rep.averageLoadTime == SumAverages(Averages(order, spans))
      && (rep.averageLoadTime == 0.0 ==> forall i :: 0 <= i < |rep.rows| ==> rep.rows[i].percent == None)
      && (rep.averageLoadTime != 0.0 ==>
            SumPercents(rep.rows) == 100.0 &&
            forall i :: 0 <= i < |rep.rows| ==>
              rep.rows[i].percent.Some? && 0.0 <= rep.rows[i].percent.value <= 100.0)
      && rep.totalLoadTime == Sum(AllSamples(order, spans))
      && rep.showsAverage == (runs > 1)
  {
    var es := Averages(order, spans);
    var sorted := SortByAverage(es);
    var total := SumAverages(sorted);
    SortKeepsSum(es);
    SortedNonNegative(order, spans);
    PercentColumn(sorted);
    assert Summarize(order, spans, runs) == Report(Rows(sorted, total), runs, total, runs > 1, Sum(AllSamples(order, spans)));
  }
}
