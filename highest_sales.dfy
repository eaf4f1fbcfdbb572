/** The "Average Rating of Highest Sales" view: coerce Selling Price and
    Rating, drop the rows missing either, select the rows whose price
    equals the largest price exactly, and average their ratings; beside it,
    the mean rating for each selling price. */
module HighestSales {
  import opened Options
  import opened Columns
  import opened Stats
  import opened Ingest
  import opened Grouping

  /** The boolean-mask selection of the rows whose price equals v, in row
      order: exactly those rows, and each as often as it occurs. */
  function WithPrice(rows: seq<(real, real)>, v: real): (r: seq<(real, real)>)
    ensures forall x :: x in r <==> x in rows && x.0 == v
    ensures forall x: (real, real) :: x.0 == v ==> Count(r, x) == Count(rows, x)
  {
    if rows == [] then []
    else
      var head := if rows[0].0 == v then [rows[0]] else [];
      var rest := WithPrice(rows[1..], v);
      CountAppend(head, rest);
      CountAppend([rows[0]], rows[1..]);
      assert rows == [rows[0]] + rows[1..];
      head + rest
  }

  /** The highest price (missing for an empty table: the maximum of an
      empty column is NaN, which equals no price), the rows at that price,
      and the mean of their ratings. */
  datatype Summary = Summary(highest: Option<real>, selected: seq<(real, real)>, averageRating: Option<real>)

  function HighestPriceSummary(rows: seq<(real, real)>): (s: Summary)
    ensures s.highest.Some? <==> |rows| > 0
    ensures s.highest.Some? ==>
              (exists i :: 0 <= i < |rows| && rows[i].0 == s.highest.value) &&
              forall i :: 0 <= i < |rows| ==> rows[i].0 <= s.highest.value
    ensures forall x :: x in s.selected <==> x in rows && Some(x.0) == s.highest
    ensures s.highest.Some? ==> s.selected == WithPrice(rows, s.highest.value)
    ensures s.averageRating == Mean(Seconds(s.selected))
    ensures s.averageRating.Some? <==> |rows| > 0
  {
    if rows == [] then Summary(None, [], None)
    else
      var prices := Firsts(rows);
      FirstsAt(rows);
      var top := MaxOf(prices);
      var j :| 0 <= j < |prices| && prices[j] == top;
      assert rows[j].0 == top;
      assert forall i :: 0 <= i < |rows| ==> rows[i].0 == prices[i] <= top;
      var selected := WithPrice(rows, top);
      assert rows[j] in selected;
      Summary(Some(top), selected, Mean(Seconds(selected)))
  }

  /** The reported rating is the mean of the selected rows' ratings, so it
      lies between the smallest and the largest of them. */
  lemma AverageRatingBounds(rows: seq<(real, real)>)
    requires |rows| > 0
    ensures var s := HighestPriceSummary(rows);
            |s.selected| > 0 &&
            MinOf(Seconds(s.selected)) <= s.averageRating.value <= MaxOf(Seconds(s.selected))
  {
    var s := HighestPriceSummary(rows);
    var i :| 0 <= i < |rows| && rows[i].0 == s.highest.value;
    assert rows[i] in s.selected;
    MeanBounds(Seconds(s.selected));
  }

  /** The worked scenario: prices 100, 500, 500 with ratings 3, 4, 5 select
      the last two rows and report 4.5. */
  lemma TwoHighestRows()
    ensures var s := HighestPriceSummary([(100.0, 3.0), (500.0, 4.0), (500.0, 5.0)]);
            s.highest == Some(500.0) &&
            s.selected == [(500.0, 4.0), (500.0, 5.0)] &&
            s.averageRating == Some(4.5)
  {
    ScenarioPriceColumn();
    ScenarioMax();
    ScenarioSelection();
    ScenarioRatings();
  }

  // The scenario's intermediate values, each computed on its own.
  lemma ScenarioPriceColumn()
    ensures Firsts([(100.0, 3.0), (500.0, 4.0), (500.0, 5.0)]) == [100.0, 500.0, 500.0] {}
  lemma ScenarioMax()
    ensures MaxOf([100.0, 500.0, 500.0]) == 500.0 {}
  lemma ScenarioSelection()
    ensures WithPrice([(100.0, 3.0), (500.0, 4.0), (500.0, 5.0)], 500.0) == [(500.0, 4.0), (500.0, 5.0)] {}
  lemma ScenarioRatings()
    ensures Seconds([(500.0, 4.0), (500.0, 5.0)]) == [4.0, 5.0]
    ensures Mean([4.0, 5.0]) == Some(4.5) {}

  // ---------------------------------------------------------------------
  // Mean rating per selling price
  // ---------------------------------------------------------------------

  lemma {:induction false} PriceKeyedGroups(rows: seq<(real, real)>, p: real)
    ensures Values(Keyed(rows), p) == Seconds(WithPrice(rows, p))
    ensures Size(Keyed(rows), p) == Count(Firsts(rows), p)
  {
    if rows != [] {
      PriceKeyedGroups(rows[1..], p);
      var keyed := Keyed(rows);
      assert keyed[1..] == Keyed(rows[1..]);
      assert KeyColumn(keyed) == [rows[0].0] + KeyColumn(keyed[1..]);
      assert Firsts(rows) == [rows[0].0] + Firsts(rows[1..]);
      assert Seconds(WithPrice(rows, p))
          == (if rows[0].0 == p then [rows[0].1] else []) + Seconds(WithPrice(rows[1..], p)) by {
        if rows[0].0 == p {
          assert WithPrice(rows, p) == [rows[0]] + WithPrice(rows[1..], p);
        } else {
          assert WithPrice(rows, p) == WithPrice(rows[1..], p);
        }
      }
    }
  }

  datatype RatingView = RatingView(summary: Summary, ratingByPrice: seq<(real, Option<real>)>)

  function AverageRatingHighestSales(parse: string -> Option<real>, table: seq<Listing>): RatingView
  {
    var rows := PriceRatingRows(parse, table);
    RatingView(HighestPriceSummary(rows), MeanBy(Keyed(rows)))
  }

  /** A listing the view keeps: both its price and its rating read as
      numbers. */
  predicate Complete(parse: string -> Option<real>, l: Listing)
  {
    Coerce(parse, l.sellingPrice).Some? && Coerce(parse, l.rating).Some?
  }

  /** The view over the listings: a highest price exists exactly when some
      listing is complete, and it is the price of a complete listing that
      no complete listing's price exceeds. */
  lemma HighestOverListings(parse: string -> Option<real>, table: seq<Listing>)
    ensures var h := AverageRatingHighestSales(parse, table).summary.highest;
            h.Some? <==> exists i :: 0 <= i < |table| && Complete(parse, table[i])
    ensures var h := AverageRatingHighestSales(parse, table).summary.highest;
            h.Some? ==>
              (exists i :: 0 <= i < |table| && Complete(parse, table[i]) &&
                 Coerce(parse, table[i].sellingPrice).value == h.value) &&
              forall i :: 0 <= i < |table| && Complete(parse, table[i]) ==>
                 Coerce(parse, table[i].sellingPrice).value <= h.value
  {
    var rows := PriceRatingRows(parse, table);
    var s := HighestPriceSummary(rows);
    assert AverageRatingHighestSales(parse, table).summary == s;
    forall i | 0 <= i < |table| && Complete(parse, table[i])
      ensures |rows| > 0 && Coerce(parse, table[i].sellingPrice).value <= s.highest.value
    {
      var k := CompleteListingKept(parse, table, i);
    }
    if s.highest.Some? {
      var j :| 0 <= j < |rows| && rows[j].0 == s.highest.value;
      var i := RowOrigin(parse, table, j);
    }
  }

  /** Every kept row comes from a complete listing with that price. */
  lemma RowOrigin(parse: string -> Option<real>, table: seq<Listing>, k: nat) returns (i: nat)
    requires k < |PriceRatingRows(parse, table)|
    ensures i < |table| && Complete(parse, table[i]) &&
            Coerce(parse, table[i].sellingPrice).value == PriceRatingRows(parse, table)[k].0
  {
    var rows := PriceRatingRows(parse, table);
    i :| 0 <= i < |table| &&
      Coerce(parse, table[i].sellingPrice) == Some(rows[k].0) && Coerce(parse, table[i].rating) == Some(rows[k].1);
  }

  /** A complete listing survives the drop as the row at position k. */
  lemma CompleteListingKept(parse: string -> Option<real>, table: seq<Listing>, i: nat) returns (k: nat)
    requires i < |table| && Complete(parse, table[i])
    ensures var rows := PriceRatingRows(parse, table);
            k < |rows| && rows[k].0 == Coerce(parse, table[i].sellingPrice).value
  {
    PriceRatingRowsExact(parse, table, i);
    k := |Present(PriceRatingCells(parse, table)[..i])|;
  }

  /** The per-price table lists each occurring price once with the mean
      rating of the rows at that price; at the highest price its entry is
      the rating the summary reports. */
  lemma RatingByPriceExact(parse: string -> Option<real>, table: seq<Listing>, p: real)
    ensures var rows := PriceRatingRows(parse, table);
            var v := AverageRatingHighestSales(parse, table);
            Lookup(v.ratingByPrice, p) ==
              if p in Firsts(rows) then Some(Mean(Seconds(WithPrice(rows, p)))) else None
    ensures var v := AverageRatingHighestSales(parse, table);
            v.summary.highest.Some? ==>
              Lookup(v.ratingByPrice, v.summary.highest.value) == Some(v.summary.averageRating)
    ensures NoDuplicates(Firsts(AverageRatingHighestSales(parse, table).ratingByPrice))
  {
    var rows := PriceRatingRows(parse, table);
    PriceKeyedGroups(rows, p);
    MeanByExact(Keyed(rows), p);
    CountPositive(Firsts(rows), p);
    var s := HighestPriceSummary(rows);
    if s.highest.Some? {
      var h := s.highest.value;
      PriceKeyedGroups(rows, h);
      MeanByExact(Keyed(rows), h);
      CountPositive(Firsts(rows), h);
      var i :| 0 <= i < |rows| && rows[i].0 == h;
      FirstsAt(rows);
      assert Firsts(rows)[i] == h;
    }
  }
}
