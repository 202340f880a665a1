/** The per-term time series of BidCoverRatio.py (lines 48, 55-56 and 70): for each distinct
    maturity label, the rows of that label with a ratio, in auction-date order, and the trailing
    10-auction moving average of their ratios, `rolling(window=10).mean()`. */
module TimeSeries {
  import opened Wrappers
  import opened Sequences
  import opened Auctions

  /** The rolling window; pandas' `min_periods` defaults to the window, so a mean needs 10 values. */
  const Window: nat := 10

  // ---------------------------------------------------------------------------
  // The distinct labels (line 48)

  /** `df['security_term'].unique()`: every label that occurs, each exactly once. */
  function UniqueTerms(df: seq<AuctionRecord>): (ts: seq<string>)
    ensures forall i, j :: 0 <= i < j < |ts| ==> ts[i] != ts[j]
    ensures forall t :: t in ts <==> exists r :: r in df && r.securityTerm == t
  {
    if df == [] then []
    else
      var init := df[..|df| - 1];
      assert df == init + [df[|df| - 1]];
      var ts := UniqueTerms(init);
      var t := df[|df| - 1].securityTerm;
      if t in ts then ts else ts + [t]
  }

  /** Label `a` occurs in `df` before `b` does: at some row with label `a`, no row up to and
      including it has label `b`. */
  predicate AppearsFirst(df: seq<AuctionRecord>, a: string, b: string) {
    exists k :: 0 <= k < |df| && df[k].securityTerm == a && forall l :: 0 <= l <= k ==> df[l].securityTerm != b
  }

  /** The labels `ts` are listed in the order in which they first appear in `df`. */
  predicate InFirstAppearanceOrder(df: seq<AuctionRecord>, ts: seq<string>) {
    forall i, j :: 0 <= i < j < |ts| ==> AppearsFirst(df, ts[i], ts[j])
  }

  /** `unique()` lists the labels in the order of their first appearance. */
  lemma {:induction false} UniqueTermsOrder(df: seq<AuctionRecord>)
    ensures InFirstAppearanceOrder(df, UniqueTerms(df))
    decreases |df|
  {
    if df != [] {
      var init := df[..|df| - 1];
      UniqueTermsOrder(init);
      UniqueTermsOrderStep(df, init);
    }
  }

  lemma {:induction false} UniqueTermsOrderStep(df: seq<AuctionRecord>, init: seq<AuctionRecord>)
    requires df != [] && init == df[..|df| - 1]
    requires InFirstAppearanceOrder(init, UniqueTerms(init))
    ensures InFirstAppearanceOrder(df, UniqueTerms(df))
  {
    var ts0, ts := UniqueTerms(init), UniqueTerms(df);
    var t := df[|df| - 1].securityTerm;
    assert df == init + [df[|df| - 1]];
    assert ts == if t in ts0 then ts0 else ts0 + [t];
    forall i, j | 0 <= i < j < |ts| ensures AppearsFirst(df, ts[i], ts[j]) {
      if j < |ts0| {
        assert ts[i] == ts0[i] && ts[j] == ts0[j];
        assert AppearsFirst(init, ts0[i], ts0[j]);
        AppearsFirstExtend(df, init, ts0[i], ts0[j]);
      } else {
        assert ts[j] == t && t !in ts0 && ts[i] == ts0[i] && ts0[i] in ts0;
        NewTermAppearsLast(df, init, ts0[i], t);
      }
    }
  }

  /** A label seen in `init` appears before a label `init` lacks. */
  lemma {:induction false} NewTermAppearsLast(df: seq<AuctionRecord>, init: seq<AuctionRecord>, a: string, b: string)
    requires |init| <= |df| && init == df[..|init|]
    requires exists r :: r in init && r.securityTerm == a
    requires forall r :: r in init ==> r.securityTerm != b
    ensures AppearsFirst(df, a, b)
  {
    var r :| r in init && r.securityTerm == a;
    var k :| 0 <= k < |init| && init[k] == r;
    assert forall l :: 0 <= l <= k ==> init[l] in init;
    assert forall l :: 0 <= l <= k ==> df[l] == init[l];
  }

  lemma {:induction false} AppearsFirstExtend(df: seq<AuctionRecord>, init: seq<AuctionRecord>, a: string, b: string)
    requires |init| <= |df| && init == df[..|init|] && AppearsFirst(init, a, b)
    ensures AppearsFirst(df, a, b)
  {
    var k :| 0 <= k < |init| && init[k].securityTerm == a && forall l :: 0 <= l <= k ==> init[l].securityTerm != b;
    assert forall l :: 0 <= l <= k ==> df[l] == init[l];
  }

  // ---------------------------------------------------------------------------
  // One term's series (lines 55-56)

  /** A row that enters the series of `term`: its label is `term` and its ratio is not NaN. */
  predicate InSeries(r: AuctionRecord, term: string) {
    r.securityTerm == term && r.bidToCoverRatio.Some?
  }

  /** `df[df['security_term'] == term].dropna(subset=['bid_to_cover_ratio']).sort_values(by='auction_date')`:
      exactly the rows of `term` with a ratio, each as often as in `df`, in non-decreasing date order.
      The order of rows sharing a date is left open, as pandas' default sort is not stable. */
  function TermSeries(df: seq<AuctionRecord>, term: string): (s: seq<AuctionRecord>)
    ensures forall x :: multiset(s)[x] == if InSeries(x, term) then multiset(df)[x] else 0
    ensures forall i :: 0 <= i < |s| ==> InSeries(s[i], term)
    ensures forall i, j :: 0 <= i < j < |s| ==> s[i].auctionDate <= s[j].auctionDate
  {
    var selected := Filter(df, r => InSeries(r, term));
    var s := SortBy(selected, DateKey);
    assert forall i :: 0 <= i < |s| ==> s[i] in multiset(selected);
    s
  }

  /** Every row with a ratio is in the series of its own label, and that label is one of the
      distinct labels the script iterates over. */
  lemma {:induction false} EveryRatedRowIsPlotted(df: seq<AuctionRecord>, r: AuctionRecord)
    requires r in df && r.bidToCoverRatio.Some?
    ensures r.securityTerm in UniqueTerms(df)
    ensures r in TermSeries(df, r.securityTerm)
  {
    var s := TermSeries(df, r.securityTerm);
    assert multiset(s)[r] == multiset(df)[r];
  }

  // ---------------------------------------------------------------------------
  // The moving average (line 70)

  /** The ratio column of a series. */
  function Ratios(s: seq<AuctionRecord>): seq<Option<real>> {
    seq(|s|, i requires 0 <= i < |s| => s[i].bidToCoverRatio)
  }

  /** The non-NaN values of a window, in order. */
  function Observed(w: seq<Option<real>>): (v: seq<real>)
    ensures |v| <= |w|
  {
    if w == [] then []
    else
      var init := w[..|w| - 1];
      if w[|w| - 1].Some? then Observed(init) + [w[|w| - 1].value] else Observed(init)
  }

  /** No value is lost exactly when every row of the window has one, and then the observations are
      the window's values in order. */
  lemma {:induction false} ObservedComplete(w: seq<Option<real>>)
    ensures |Observed(w)| == |w| <==> forall k :: 0 <= k < |w| ==> w[k].Some?
    ensures |Observed(w)| == |w| ==> forall k :: 0 <= k < |w| ==> w[k] == Some(Observed(w)[k])
  {
    if w != [] {
      var init := w[..|w| - 1];
      ObservedComplete(init);
      assert forall k :: 0 <= k < |init| ==> init[k] == w[k];
    }
  }

  /** Every observation is a value of the window. */
  lemma {:induction false} ObservedMembers(w: seq<Option<real>>)
    ensures forall k :: 0 <= k < |Observed(w)| ==> Some(Observed(w)[k]) in w
  {
    if w != [] {
      var init := w[..|w| - 1];
      ObservedMembers(init);
      assert forall x :: x in init ==> x in w;
    }
  }

  lemma {:induction false} ObservedAppend(a: seq<Option<real>>, b: seq<Option<real>>)
    ensures Observed(a + b) == Observed(a) + Observed(b)
    decreases |b|
  {
    if b == [] {
      assert a + b == a;
    } else {
      var init := b[..|b| - 1];
      assert (a + b)[..|a + b| - 1] == a + init;
      ObservedAppend(a, init);
      var tail := if b[|b| - 1].Some? then [b[|b| - 1].value] else [];
      assert Observed(a + b) == Observed(a + init) + tail;
      assert Observed(b) == Observed(init) + tail;
      AppendAssociative(Observed(a), Observed(init), tail);
    }
  }

  /** The reference definition: the mean at row `i` is defined only when the 10 rows ending at `i`
      exist and all have a value, and is then their arithmetic mean. */
  function TrailingMean(xs: seq<Option<real>>, i: nat): (m: Option<real>)
    requires i < |xs|
    ensures m.Some? ==> Window <= i + 1
  {
    if i + 1 < Window then None
    else
      var w := Observed(xs[i + 1 - Window..i + 1]);
      if |w| == Window then Some(Sum(w) / (Window as real)) else None
  }

  /** First row of the window of rows before `i`. */
  function WindowStart(i: nat): nat {
    if i >= Window then i - Window else 0
  }

  /** Moving the window one row on: the row at `i` enters, the row `Window` before it leaves. */
  lemma {:induction false} SlideWindow(xs: seq<Option<real>>, i: nat)
    requires i < |xs|
    ensures (if i >= Window then Observed([xs[i - Window]]) else []) + Observed(xs[WindowStart(i + 1)..i + 1])
         == Observed(xs[WindowStart(i)..i]) + Observed([xs[i]])
  {
    var lo, hi := WindowStart(i), WindowStart(i + 1);
    assert xs[lo..i + 1] == xs[lo..i] + [xs[i]];
    ObservedAppend(xs[lo..i], [xs[i]]);
    if i >= Window {
      assert hi == lo + 1;
      assert xs[lo..i + 1] == [xs[lo]] + xs[hi..i + 1];
      ObservedAppend([xs[lo]], xs[hi..i + 1]);
    } else {
      assert hi == lo;
    }
  }

  function ObservedOne(x: Option<real>): (v: seq<real>)
    ensures v == Observed([x])
  {
    assert [x][..0] == [];
    if x.Some? then [x.value] else []
  }

  /** The sum and the count of the observations in the window of rows before `i`. */
  ghost predicate RollInvariant(xs: seq<Option<real>>, i: nat, sum: real, nobs: nat)
    requires i <= |xs|
  {
    sum == Sum(Observed(xs[WindowStart(i)..i])) && nobs == |Observed(xs[WindowStart(i)..i])|
  }

  /** One step of pandas' sliding computation: add the value entering at row `i` when it is not NaN,
      and remove the one leaving the window when it is not NaN. The new state describes the window
      ending at row `i`. */
  function Advance(xs: seq<Option<real>>, i: nat, sum: real, nobs: nat): (r: (real, int))
    requires i < |xs|
    ensures nobs - 1 <= r.1 <= nobs + 1
  {
    var x, leaving := xs[i], if i >= Window then xs[i - Window] else None;
    var sum1 := if x.Some? then sum + x.value else sum;
    var nobs1 := if x.Some? then nobs + 1 else nobs;
    if leaving.Some? then (sum1 - leaving.value, nobs1 - 1) else (sum1, nobs1)
  }

  /** What a single row contributes to a window's sum and count. */
  lemma {:induction false} ObservedOneContributes(x: Option<real>)
    ensures Sum(ObservedOne(x)) == (if x.Some? then x.value else 0.0)
    ensures |ObservedOne(x)| == (if x.Some? then 1 else 0)
  {
    if x.Some? {
      assert [x.value][..0] == [];
    }
  }

  /** Sliding the window by one row changes its sum and count by the entering and leaving rows. */
  lemma {:induction false} SlideSums(xs: seq<Option<real>>, i: nat)
    requires i < |xs|
    ensures var before, after := Observed(xs[WindowStart(i)..i]), Observed(xs[WindowStart(i + 1)..i + 1]);
      var entering, left := ObservedOne(xs[i]), ObservedOne(if i >= Window then xs[i - Window] else None);
      && Sum(after) == Sum(before) + Sum(entering) - Sum(left)
      && |after| == |before| + |entering| - |left|
  {
    SlideWindow(xs, i);
    var before, after := Observed(xs[WindowStart(i)..i]), Observed(xs[WindowStart(i + 1)..i + 1]);
    var entering, left := ObservedOne(xs[i]), ObservedOne(if i >= Window then xs[i - Window] else None);
    assert left == if i >= Window then Observed([xs[i - Window]]) else [];
    SumAppend(left, after);
    SumAppend(before, entering);
  }

  /** The step keeps the running state exact: after row `i` it describes the window ending at `i`. */
  lemma {:induction false} AdvancePreserves(xs: seq<Option<real>>, i: nat, sum: real, nobs: nat)
    requires i < |xs| && RollInvariant(xs, i, sum, nobs)
    ensures Advance(xs, i, sum, nobs).1 >= 0
    ensures RollInvariant(xs, i + 1, Advance(xs, i, sum, nobs).0, Advance(xs, i, sum, nobs).1 as nat)
  {
    var leaving := if i >= Window then xs[i - Window] else None;
    SlideSums(xs, i);
    ObservedOneContributes(xs[i]);
    ObservedOneContributes(leaving);
  }

  /** The value reported for a window: the mean of its observations once there are `min_periods`
      of them, NaN before. */
  function Report(sum: real, nobs: nat): (m: Option<real>)
    ensures m.Some? <==> Window <= nobs
    ensures m.Some? ==> m.value * (nobs as real) == sum
  {
    if nobs >= Window then Some(sum / (nobs as real)) else None
  }

  /** What is reported after row `i` is the reference trailing mean at `i`. */
  lemma {:induction false} ReportIsTrailingMean(xs: seq<Option<real>>, i: nat, sum: real, nobs: nat)
    requires i < |xs| && RollInvariant(xs, i + 1, sum, nobs)
    ensures Report(sum, nobs) == TrailingMean(xs, i)
  {
  }

  /** pandas' sliding computation of `rolling(window=Window).mean()` from row `i` on, given the
      running sum and count of the observations among the (up to) `Window` rows before `i`. */
  function Roll(xs: seq<Option<real>>, i: nat, sum: real, nobs: nat): (m: seq<Option<real>>)
    requires i <= |xs| && RollInvariant(xs, i, sum, nobs)
    ensures |m| == |xs| - i
    ensures forall k :: 0 <= k < |m| ==> m[k] == TrailingMean(xs, i + k)
    decreases |xs| - i
  {
    if i == |xs| then []
    else
      var st := Advance(xs, i, sum, nobs);
      AdvancePreserves(xs, i, sum, nobs);
      ReportIsTrailingMean(xs, i, st.0, st.1 as nat);
      var rest := Roll(xs, i + 1, st.0, st.1 as nat);
      TrailingMeansCons(xs, i, Report(st.0, st.1 as nat), rest);
      [Report(st.0, st.1 as nat)] + rest
  }

  /** Prepending the mean at row `i` to the means from row `i + 1` on gives the means from `i` on. */
  lemma {:induction false} TrailingMeansCons(xs: seq<Option<real>>, i: nat, head: Option<real>, rest: seq<Option<real>>)
    requires i < |xs| && head == TrailingMean(xs, i) && |rest| == |xs| - (i + 1)
    requires forall k :: 0 <= k < |rest| ==> rest[k] == TrailingMean(xs, i + 1 + k)
    ensures forall k :: 0 <= k < |rest| + 1 ==> ([head] + rest)[k] == TrailingMean(xs, i + k)
  {
    forall k | 0 <= k < |rest| + 1 ensures ([head] + rest)[k] == TrailingMean(xs, i + k) {
      if k > 0 {
        assert ([head] + rest)[k] == rest[k - 1];
      }
    }
  }

  /** `rolling(window=10).mean()` over a column: one value per row, each the reference trailing mean. */
  function RollingMean(xs: seq<Option<real>>): (m: seq<Option<real>>)
    ensures |m| == |xs|
    ensures forall i :: 0 <= i < |xs| ==> m[i] == TrailingMean(xs, i)
  {
    assert xs[0..0] == [];
    assert RollInvariant(xs, 0, 0.0, 0);
    Roll(xs, 0, 0.0, 0)
  }

  /** The mean at row `i` exists exactly when `i >= 9` and the 10 rows ending at `i` all have a value. */
  lemma {:induction false} TrailingMeanDefined(xs: seq<Option<real>>, i: nat)
    requires i < |xs|
    ensures TrailingMean(xs, i).Some? <==> Window <= i + 1 && forall k :: i + 1 - Window <= k <= i ==> xs[k].Some?
  {
    if Window <= i + 1 {
      var w := xs[i + 1 - Window..i + 1];
      ObservedComplete(w);
      assert forall k :: i + 1 - Window <= k <= i ==> xs[k] == w[k - (i + 1 - Window)];
      assert forall j :: 0 <= j < |w| ==> w[j] == xs[j + (i + 1 - Window)];
    }
  }

  /** A mean of values that all lie in [lo, hi] lies in [lo, hi]; in particular ratios that are never
      negative have a moving average that is never negative. */
  lemma {:induction false} TrailingMeanBounds(xs: seq<Option<real>>, i: nat, lo: real, hi: real)
    requires i < |xs|
    requires forall k :: 0 <= k < |xs| && xs[k].Some? ==> lo <= xs[k].value <= hi
    ensures TrailingMean(xs, i).Some? ==> lo <= TrailingMean(xs, i).value <= hi
  {
    if TrailingMean(xs, i).Some? {
      var ws := xs[i + 1 - Window..i + 1];
      var w := Observed(ws);
      ObservedMembers(ws);
      forall k | 0 <= k < |w| ensures lo <= w[k] <= hi {
        assert Some(w[k]) in ws;
        var j :| 0 <= j < |ws| && ws[j] == Some(w[k]);
        assert xs[j + (i + 1 - Window)] == Some(w[k]);
      }
      SumBounds(w, lo, hi);
    }
  }

  /** Line 70: the `moving_avg` column of one term's series. */
  function MovingAverage(df: seq<AuctionRecord>, term: string): (m: seq<Option<real>>)
    ensures |m| == |TermSeries(df, term)|
    ensures forall i :: 0 <= i < |m| ==> m[i] == TrailingMean(Ratios(TermSeries(df, term)), i)
  {
    RollingMean(Ratios(TermSeries(df, term)))
  }

  /** In a series where every ratio is present, the moving average is defined from the tenth row
      on and nowhere before, and is then the sum of the ten ratios ending at that row, over 10. */
  lemma {:induction false} RatedMovingAverage(s: seq<AuctionRecord>, i: nat)
    requires i < |s| && forall k :: 0 <= k < |s| ==> s[k].bidToCoverRatio.Some?
    ensures |RollingMean(Ratios(s))| == |s|
    ensures RollingMean(Ratios(s))[i].Some? <==> Window <= i + 1
    ensures Window <= i + 1 ==>
      var w := Observed(Ratios(s)[i + 1 - Window..i + 1]);
      && |w| == Window
      && (forall k :: 0 <= k < Window ==> s[i + 1 - Window + k].bidToCoverRatio == Some(w[k]))
      && RollingMean(Ratios(s))[i] == Some(Sum(w) / (Window as real))
  {
    var xs := Ratios(s);
    TrailingMeanDefined(xs, i);
    if Window <= i + 1 {
      var ws := xs[i + 1 - Window..i + 1];
      ObservedComplete(ws);
      assert forall k :: 0 <= k < Window ==> ws[k] == s[i + 1 - Window + k].bidToCoverRatio;
    }
  }

  /** Line 70 on a term's series: the moving average is defined exactly from the tenth auction of
      the term on, and is then the mean of that auction's ratio and the nine before it. */
  lemma {:induction false} SeriesMovingAverage(df: seq<AuctionRecord>, term: string, i: nat)
    requires i < |TermSeries(df, term)|
    ensures |MovingAverage(df, term)| == |TermSeries(df, term)|
    ensures MovingAverage(df, term)[i].Some? <==> Window <= i + 1
    ensures Window <= i + 1 ==>
      var s := TermSeries(df, term);
      var w := Observed(Ratios(s)[i + 1 - Window..i + 1]);
      && |w| == Window
      && (forall k :: 0 <= k < Window ==> s[i + 1 - Window + k].bidToCoverRatio == Some(w[k]))
      && MovingAverage(df, term)[i] == Some(Sum(w) / (Window as real))
  {
    RatedMovingAverage(TermSeries(df, term), i);
  }

  // ---------------------------------------------------------------------------
  // The loop over the labels (lines 54-79)

  /** The two lines drawn for one label: its series and its moving average. */
  datatype TermTrace = TermTrace(term: string, points: seq<AuctionRecord>, movingAvg: seq<Option<real>>)

  /** One trace per distinct label, in the order of `UniqueTerms`. */
  function Traces(df: seq<AuctionRecord>): (ts: seq<TermTrace>)
    ensures |ts| == |UniqueTerms(df)|
    ensures forall i :: 0 <= i < |ts| ==> ts[i].term == UniqueTerms(df)[i]
    ensures forall i :: 0 <= i < |ts| ==>
      ts[i].points == TermSeries(df, ts[i].term) && ts[i].movingAvg == MovingAverage(df, ts[i].term)
  {
    var terms := UniqueTerms(df);
    seq(|terms|, i requires 0 <= i < |terms| => TermTrace(terms[i], TermSeries(df, terms[i]), MovingAverage(df, terms[i])))
  }

  /** Each rated row is drawn in exactly one trace, the one of its own label. */
  lemma {:induction false} TracesPartitionRows(df: seq<AuctionRecord>, r: AuctionRecord)
    requires r in df && r.bidToCoverRatio.Some?
    ensures exists i :: 0 <= i < |Traces(df)| && r in Traces(df)[i].points
    ensures forall i, j :: 0 <= i < |Traces(df)| && 0 <= j < |Traces(df)| && r in Traces(df)[i].points && r in Traces(df)[j].points ==> i == j
  {
    var ts := Traces(df);
    RowDrawn(df, ts, r);
    RowDrawnOnce(df, ts, r);
  }

  /** A row is drawn in at most one trace. */
  lemma {:induction false} RowDrawnOnce(df: seq<AuctionRecord>, ts: seq<TermTrace>, r: AuctionRecord)
    requires ts == Traces(df)
    ensures forall i, j :: 0 <= i < |ts| && 0 <= j < |ts| && r in ts[i].points && r in ts[j].points ==> i == j
  {
    forall i, j | 0 <= i < |ts| && 0 <= j < |ts| && r in ts[i].points && r in ts[j].points
      ensures i == j
    {
      PointsOfTrace(df, ts, i, r);
      PointsOfTrace(df, ts, j, r);
    }
  }

  /** A rated row is drawn in the trace of its own label. */
  lemma {:induction false} RowDrawn(df: seq<AuctionRecord>, ts: seq<TermTrace>, r: AuctionRecord)
    requires ts == Traces(df) && r in df && r.bidToCoverRatio.Some?
    ensures exists i :: 0 <= i < |ts| && r in ts[i].points
  {
    var terms := UniqueTerms(df);
    EveryRatedRowIsPlotted(df, r);
    var i :| 0 <= i < |terms| && terms[i] == r.securityTerm;
    assert ts[i].points == TermSeries(df, r.securityTerm);
  }

  /** A row drawn in a trace carries that trace's label. */
  lemma {:induction false} PointsOfTrace(df: seq<AuctionRecord>, ts: seq<TermTrace>, i: nat, r: AuctionRecord)
    requires ts == Traces(df) && i < |ts| && r in ts[i].points
    ensures r.securityTerm == ts[i].term == UniqueTerms(df)[i]
  {
    var s := TermSeries(df, ts[i].term);
    var k :| 0 <= k < |s| && s[k] == r;
    assert InSeries(s[k], ts[i].term);
  }
}
