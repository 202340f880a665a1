/** The cross-section half of BidCoverRatio.py (lines 127 and 154-169): drop the rows without a
    ratio, order the rows by maturity in years, keep the auctions of a date window, and pick out
    the rows of the most recent auction date in that window. */
module CrossSection {
  import opened Wrappers
  import opened Sequences
  import opened Auctions
  import opened TermNormalizer

  /** Line 154: the `security_term_numeric` column, the maturity of a row in years; never negative. */
  function TermNumeric(r: AuctionRecord): (y: real)
    ensures y >= 0.0
  {
    TermYears(r.securityTerm)
  }

  /** Line 127, `dropna(subset=['bid_to_cover_ratio'])`: the rows with a ratio, in their order. */
  function DropMissingRatios(df: seq<AuctionRecord>): (r: seq<AuctionRecord>)
    ensures IsSubsequence(r, df)
    ensures forall x :: multiset(r)[x] == if x.bidToCoverRatio.Some? then multiset(df)[x] else 0
  {
    Filter(df, (x: AuctionRecord) => x.bidToCoverRatio.Some?)
  }

  /** Line 155, `sort_values(by='security_term_numeric')`: the same rows, shortest maturity first.
      The order among rows of equal maturity is left open, as pandas' default sort is not stable. */
  function SortByTerm(df: seq<AuctionRecord>): (r: seq<AuctionRecord>)
    ensures multiset(r) == multiset(df)
    ensures SortedBy(r, TermNumeric)
  {
    SortBy(df, TermNumeric)
  }

  /** The numeric maturity orders bills before notes before bonds: 4 weeks, then 1 year, then 10 years. */
  lemma {:induction false} MaturityOrder()
    ensures TermYears("4-Week") < TermYears("1-Year") < TermYears("10-Year")
  {
    FourWeeks();
    OneYear();
    TenYears();
  }

  lemma {:induction false} OneYear()
    ensures TermYears("1-Year") == 1.0
  {
    assert DecimalString(1) + "-Year" == "1-Year";
    WholeYears(1);
  }

  lemma {:induction false} TenYears()
    ensures TermYears("10-Year") == 10.0
  {
    assert DecimalString(10) == "10";
    assert DecimalString(10) + "-Year" == "10-Year";
    WholeYears(10);
  }

  /** Line 163's mask: the auction date lies in the closed window [start, end]. */
  predicate InWindow(r: AuctionRecord, start: int, end: int) {
    start <= r.auctionDate <= end
  }

  /** Line 163, `filtered_df`: the rows whose auction date is in the window, in their order. */
  function WindowFilter(df: seq<AuctionRecord>, start: int, end: int): (r: seq<AuctionRecord>)
    ensures IsSubsequence(r, df)
    ensures forall x :: multiset(r)[x] == if InWindow(x, start, end) then multiset(df)[x] else 0
  {
    Filter(df, (x: AuctionRecord) => InWindow(x, start, end))
  }

  /** Line 166, `filtered_df['auction_date'].max()`: undefined (NaT) on no rows, otherwise a date that
      some row has and that no row exceeds. */
  function LastAuctionDate(df: seq<AuctionRecord>): (d: Option<int>)
    ensures d.None? <==> df == []
    ensures d.Some? ==> exists r :: r in df && r.auctionDate == d.value
    ensures d.Some? ==> forall r :: r in df ==> r.auctionDate <= d.value
  {
    if df == [] then None
    else
      var init := df[..|df| - 1];
      var last := df[|df| - 1].auctionDate;
      assert df == init + [df[|df| - 1]];
      match LastAuctionDate(init)
      case None => Some(last)
      case Some(m) => if m < last then Some(last) else Some(m)
  }

  /** The mask of line 169: the row was auctioned on the most recent date. Comparing with NaT is
      false, so no row is selected when there is no date. */
  predicate OnDate(r: AuctionRecord, d: Option<int>) {
    d.Some? && r.auctionDate == d.value
  }

  /** Line 169, `last_auction_df`: exactly the rows of the most recent auction date, in order; there
      are some as soon as there is any row. */
  function LastAuction(filtered: seq<AuctionRecord>): (r: seq<AuctionRecord>)
    ensures IsSubsequence(r, filtered)
    ensures forall x :: multiset(r)[x] == if OnDate(x, LastAuctionDate(filtered)) then multiset(filtered)[x] else 0
    ensures r == [] <==> filtered == []
  {
    var d := LastAuctionDate(filtered);
    var r := Filter(filtered, (x: AuctionRecord) => OnDate(x, d));
    assert filtered != [] ==> r != [] by {
      if filtered != [] {
        var x :| x in filtered && x.auctionDate == d.value;
        assert x in multiset(filtered);
        assert multiset(r)[x] > 0;
      }
    }
    r
  }

  /** The two tables the charts draw on. */
  datatype CrossSectionResult = CrossSectionResult(filtered: seq<AuctionRecord>, lastAuction: seq<AuctionRecord>)

  /** Lines 127 and 154-169 in sequence, for the date window [start, end]: every row of the window's
      table has a ratio and a date in the window, and the last auction's table is a selection from
      it of the rows on its latest date. */
  function AnalyzeCrossSection(df: seq<AuctionRecord>, start: int, end: int): (res: CrossSectionResult)
    ensures forall i :: 0 <= i < |res.filtered| ==>
      res.filtered[i].bidToCoverRatio.Some? && InWindow(res.filtered[i], start, end)
    ensures IsSubsequence(res.lastAuction, res.filtered)
    ensures forall i :: 0 <= i < |res.lastAuction| ==> OnDate(res.lastAuction[i], LastAuctionDate(res.filtered))
  {
    var rated := DropMissingRatios(df);
    var ordered := SortByTerm(rated);
    var filtered := WindowFilter(ordered, start, end);
    RatedAndInWindow(df, start, end, filtered);
    OnLastDate(filtered);
    CrossSectionResult(filtered, LastAuction(filtered))
  }

  lemma {:induction false} RatedAndInWindow(df: seq<AuctionRecord>, start: int, end: int, f: seq<AuctionRecord>)
    requires f == WindowFilter(SortByTerm(DropMissingRatios(df)), start, end)
    ensures forall i :: 0 <= i < |f| ==> f[i].bidToCoverRatio.Some? && InWindow(f[i], start, end)
  {
    var rated := DropMissingRatios(df);
    var ordered := SortByTerm(rated);
    forall i | 0 <= i < |f| ensures f[i].bidToCoverRatio.Some? && InWindow(f[i], start, end) {
      var x := f[i];
      assert multiset(f)[x] > 0;
      assert multiset(ordered)[x] > 0;
      assert multiset(rated)[x] > 0;
    }
  }

  lemma {:induction false} OnLastDate(filtered: seq<AuctionRecord>)
    ensures var r := LastAuction(filtered);
      forall i :: 0 <= i < |r| ==> OnDate(r[i], LastAuctionDate(filtered))
  {
    var r := LastAuction(filtered);
    forall i | 0 <= i < |r| ensures OnDate(r[i], LastAuctionDate(filtered)) {
      assert multiset(r)[r[i]] > 0;
    }
  }

  /** The window's table holds exactly the rows of `df` with a ratio and a date in the window, each
      as often as in `df`, ordered by maturity. */
  lemma {:induction false} FilteredRows(df: seq<AuctionRecord>, start: int, end: int)
    ensures var f := AnalyzeCrossSection(df, start, end).filtered;
      && (forall x :: multiset(f)[x] == if x.bidToCoverRatio.Some? && InWindow(x, start, end) then multiset(df)[x] else 0)
      && SortedBy(f, TermNumeric)
  {
    var ordered := SortByTerm(DropMissingRatios(df));
    SubsequenceSorted(WindowFilter(ordered, start, end), ordered, TermNumeric);
  }

  /** The last auction's table holds exactly the rows of `df` with a ratio and a date in the window
      that were auctioned on the window's latest date, ordered by maturity. */
  lemma {:induction false} LastAuctionRows(df: seq<AuctionRecord>, start: int, end: int)
    ensures var res := AnalyzeCrossSection(df, start, end);
      && (forall x :: multiset(res.lastAuction)[x] ==
            if x.bidToCoverRatio.Some? && InWindow(x, start, end) && OnDate(x, LastAuctionDate(res.filtered))
            then multiset(df)[x] else 0)
      && SortedBy(res.lastAuction, TermNumeric)
  {
    var res := AnalyzeCrossSection(df, start, end);
    FilteredRows(df, start, end);
    SubsequenceSorted(res.lastAuction, res.filtered, TermNumeric);
  }

  /** Every rated row of `df` in the window is in the window's table. */
  lemma {:induction false} RatedRowsInWindow(df: seq<AuctionRecord>, start: int, end: int)
    ensures forall x :: x in df && x.bidToCoverRatio.Some? && InWindow(x, start, end) ==>
      x in AnalyzeCrossSection(df, start, end).filtered
  {
    var f := AnalyzeCrossSection(df, start, end).filtered;
    FilteredRows(df, start, end);
    forall x | x in df && x.bidToCoverRatio.Some? && InWindow(x, start, end)
      ensures x in f
    {
      assert multiset(f)[x] == multiset(df)[x];
    }
  }

  /** The date picked out is the latest date of any rated row in the window. */
  lemma {:induction false} LastAuctionIsLatest(df: seq<AuctionRecord>, start: int, end: int)
    ensures var d := LastAuctionDate(AnalyzeCrossSection(df, start, end).filtered);
      d.Some? ==> forall x :: x in df && x.bidToCoverRatio.Some? && InWindow(x, start, end) ==> x.auctionDate <= d.value
  {
    RatedRowsInWindow(df, start, end);
  }

  /** The last auction's table is empty only when the window holds no rated row at all. */
  lemma {:induction false} LastAuctionEmpty(df: seq<AuctionRecord>, start: int, end: int)
    ensures AnalyzeCrossSection(df, start, end).lastAuction == [] <==>
      forall x :: x in df ==> !(x.bidToCoverRatio.Some? && InWindow(x, start, end))
  {
    var f := AnalyzeCrossSection(df, start, end).filtered;
    RatedRowsInWindow(df, start, end);
    if f != [] {
      FilteredRows(df, start, end);
      assert f[0] in multiset(f);
    }
  }
}
