/** The "Average Discount by Brand" and "Average Discount Percentage by
    Brand" views: coerce the discount column, take the mean per brand,
    then either sort the brand means in descending order and report the
    first brand, or average the brand means into one overall figure. */
module Discounts {
  import opened Options
  import opened Columns
  import opened Stats
  import opened Ingest
  import opened Grouping

  // ---------------------------------------------------------------------
  // Descending sort of brand means, missing means last
  // ---------------------------------------------------------------------

  /** a may stand before b in a descending order that puts missing means
      last. */
  predicate Precedes(a: Option<real>, b: Option<real>)
  {
    b.None? || (a.Some? && a.value >= b.value)
  }

  predicate SortedDescending<K>(s: seq<(K, Option<real>)>)
  {
    forall i, j :: 0 <= i < j < |s| ==> Precedes(s[i].1, s[j].1)
  }

  lemma PrecedesTransitive(a: Option<real>, b: Option<real>, c: Option<real>)
    requires Precedes(a, b) && Precedes(b, c)
    ensures Precedes(a, c)
  {
  }

  /** Place x before the first element it may precede. */
  function Insert<K>(x: (K, Option<real>), s: seq<(K, Option<real>)>): seq<(K, Option<real>)>
  {
    if s == [] || Precedes(x.1, s[0].1) then [x] + s
    else [s[0]] + Insert(x, s[1..])
  }

  /** An element that may precede the head of a sorted sequence may
      precede all of it. */
  lemma ConsSorted<K>(h: (K, Option<real>), s: seq<(K, Option<real>)>)
    requires SortedDescending(s)
    requires forall k :: 0 <= k < |s| ==> Precedes(h.1, s[k].1)
    ensures SortedDescending([h] + s)
  {
    var r := [h] + s;
    forall i, j | 0 <= i < j < |r| ensures Precedes(r[i].1, r[j].1) {
      assert r[j] == s[j - 1];
      if i > 0 {
        assert r[i] == s[i - 1];
      }
    }
  }

  lemma {:induction false} InsertSorted<K>(x: (K, Option<real>), s: seq<(K, Option<real>)>)
    requires SortedDescending(s)
    ensures SortedDescending(Insert(x, s))
    ensures multiset(Insert(x, s)) == multiset(s) + multiset{x}
  {
    if s == [] || Precedes(x.1, s[0].1) {
      forall k | 0 <= k < |s| ensures Precedes(x.1, s[k].1) {
        if k > 0 {
          PrecedesTransitive(x.1, s[0].1, s[k].1);
        }
      }
      ConsSorted(x, s);
    } else {
      var rest := Insert(x, s[1..]);
      assert s == [s[0]] + s[1..];
      InsertSorted(x, s[1..]);
      forall k | 0 <= k < |rest| ensures Precedes(s[0].1, rest[k].1) {
        assert rest[k] in multiset(rest);
        if rest[k] != x {
          assert rest[k] in multiset(s[1..]);
          var m :| 0 <= m < |s[1..]| && s[1..][m] == rest[k];
          assert s[m + 1] == rest[k];
        }
      }
      ConsSorted(s[0], rest);
    }
  }

  /** sort_values(ascending=False) on the mean column, as an insertion sort. */
  function SortDescending<K>(s: seq<(K, Option<real>)>): seq<(K, Option<real>)>
  {
    if s == [] then [] else Insert(s[0], SortDescending(s[1..]))
  }

  /** The sort yields a descending order of the same entries. */
  lemma {:induction false} SortDescendingCorrect<K>(s: seq<(K, Option<real>)>)
    ensures SortedDescending(SortDescending(s))
    ensures multiset(SortDescending(s)) == multiset(s)
  {
    if s != [] {
      SortDescendingCorrect(s[1..]);
      InsertSorted(s[0], SortDescending(s[1..]));
      assert s == [s[0]] + s[1..];
    }
  }

  /** The first row after sorting (iloc[0]); `None` where pandas raises an
      IndexError because there is no row. */
  function Top<K(==)>(averages: seq<(K, Option<real>)>): (t: Option<(K, Option<real>)>)
    ensures t.None? <==> averages == []
    ensures t.Some? ==> t.value in averages
    ensures t.Some? ==> forall i :: 0 <= i < |averages| ==> Precedes(t.value.1, averages[i].1)
  {
    var sorted := SortDescending(averages);
    SortDescendingCorrect(averages);
    if sorted == [] then
      assert |multiset(averages)| == 0;
      None
    else
      assert averages != [] by {
        assert sorted[0] in multiset(averages);
      }
      assert sorted[0] in averages by {
        assert sorted[0] in multiset(averages);
      }
      assert forall i :: 0 <= i < |averages| ==> Precedes(sorted[0].1, averages[i].1) by {
        forall i | 0 <= i < |averages| ensures Precedes(sorted[0].1, averages[i].1) {
          assert averages[i] in multiset(sorted);
          var j :| 0 <= j < |sorted| && sorted[j] == averages[i];
          assert j == 0 || Precedes(sorted[0].1, sorted[j].1);
        }
      }
      Some(sorted[0])
  }

  // ---------------------------------------------------------------------
  // The two views
  // ---------------------------------------------------------------------

  /** The table keyed by Brands, with the coerced Discount as value column. */
  function DiscountRows(parse: string -> Option<real>, table: seq<Listing>): seq<(Option<string>, Option<real>)>
  {
    seq(|table|, i requires 0 <= i < |table| => (table[i].brand, Coerce(parse, table[i].discount)))
  }

  /** The table keyed by Brands, with the coerced discount percentage as
      value column. */
  function PercentageRows(parse: string -> Option<real>, table: seq<Listing>): seq<(Option<string>, Option<real>)>
  {
    seq(|table|, i requires 0 <= i < |table| => (table[i].brand, Coerce(parse, table[i].discountPercentage)))
  }

  datatype DiscountView = DiscountView(averages: seq<(string, Option<real>)>, top: Option<(string, Option<real>)>)

  /** The brand table and its first row after the descending sort: there is
      a first row exactly when the table has a row, and it is a row of the
      table whose mean is not beaten by any brand's mean. */
  function AverageDiscountByBrand(parse: string -> Option<real>, table: seq<Listing>): (v: DiscountView)
    ensures v.top.None? <==> v.averages == []
    ensures v.top.Some? ==> v.top.value in v.averages
    ensures v.top.Some? ==> forall i :: 0 <= i < |v.averages| ==> Precedes(v.top.value.1, v.averages[i].1)
  {
    var averages := MeanBy(DiscountRows(parse, table));
    DiscountView(averages, Top(averages))
  }

  /** A key's entry in a result with pairwise different keys is the pair
      that holds it. */
  lemma {:induction false} LookupAt<K, V>(r: seq<(K, V)>, i: nat)
    requires i < |r| && NoDuplicates(Firsts(r))
    ensures Lookup(r, r[i].0) == Some(r[i].1)
  {
    FirstsAt(r);
    if i > 0 {
      assert Firsts(r)[0] != Firsts(r)[i];
      assert NoDuplicates(Firsts(r[1..])) by {
        assert Firsts(r[1..]) == Firsts(r)[1..];
      }
      LookupAt(r[1..], i - 1);
    }
  }

  /** Every entry found by key is one of the result's pairs. */
  lemma {:induction false} LookupIn<K, V>(r: seq<(K, V)>, k: K)
    requires Lookup(r, k).Some?
    ensures (k, Lookup(r, k).value) in r
  {
    if r[0].0 != k {
      LookupIn(r[1..], k);
    }
  }

  /** Top brand: when some listing has a brand, the reported brand is one
      of them, its reported discount is its mean discount, and no brand has
      a larger mean discount (a brand with a mean beats any brand without
      one). With no branded listing there is no first row. */
  lemma TopBrandIsGreatest(parse: string -> Option<real>, table: seq<Listing>, b: string, d: Option<real>)
    requires AverageDiscountByBrand(parse, table).top == Some((b, d))
    ensures Size(DiscountRows(parse, table), b) > 0
    ensures Lookup(AverageDiscountByBrand(parse, table).averages, b) == Some(d)
    ensures forall w :: Lookup(AverageDiscountByBrand(parse, table).averages, w).Some? ==>
              Precedes(d, Lookup(AverageDiscountByBrand(parse, table).averages, w).value)
  {
    var rows := DiscountRows(parse, table);
    var averages := MeanBy(rows);
    MeanByExact(rows, b);
    var i :| 0 <= i < |averages| && averages[i] == (b, d);
    LookupAt(averages, i);
    forall w | Lookup(averages, w).Some? ensures Precedes(d, Lookup(averages, w).value) {
      LookupIn(averages, w);
    }
  }

  /** There is a first row exactly when some listing has a brand. */
  lemma TopExists(parse: string -> Option<real>, table: seq<Listing>)
    ensures AverageDiscountByBrand(parse, table).top.Some? <==> |KeyColumn(DiscountRows(parse, table))| > 0
  {
    var rows := DiscountRows(parse, table);
    var col := KeyColumn(rows);
    var averages := MeanBy(rows);
    if col != [] {
      MeanOverLookup(Keys(rows), rows, col[0]);
      assert col[0] in Distinct(col);
    } else {
      assert averages == [];
    }
  }

  // ---------------------------------------------------------------------
  // Overall average of the brand means
  // ---------------------------------------------------------------------

  /** Series.mean() over the brand means: each brand weighs the same, and
      a brand whose mean is missing is skipped. */
  function OverallMean<K>(averages: seq<(K, Option<real>)>): (r: Option<real>)
    ensures r.Some? <==> exists i :: 0 <= i < |averages| && averages[i].1.Some?
    ensures r.Some? ==> var means := Present(Seconds(averages));
              |means| > 0 && MinOf(means) <= r.value <= MaxOf(means)
  {
    var c := Seconds(averages);
    SecondsAt(averages);
    PresentNonEmpty(c);
    MeanBounds(Present(c));
    Mean(Present(c))
  }

  datatype PercentageView = PercentageView(averages: seq<(string, Option<real>)>, overall: Option<real>)

  function AverageDiscountPercentageByBrand(parse: string -> Option<real>, table: seq<Listing>): PercentageView
  {
    var averages := MeanBy(PercentageRows(parse, table));
    PercentageView(averages, OverallMean(averages))
  }

  /** The overall figure exists exactly when some brand has a mean, and
      then it lies between the smallest and the largest brand mean. */
  lemma OverallBetweenBrandMeans<K>(averages: seq<(K, Option<real>)>)
    ensures OverallMean(averages).Some? <==> exists i :: 0 <= i < |averages| && averages[i].1.Some?
    ensures OverallMean(averages).Some? ==>
              (exists i :: 0 <= i < |averages| && averages[i].1.Some? && averages[i].1.value <= OverallMean(averages).value) &&
              (exists j :: 0 <= j < |averages| && averages[j].1.Some? && OverallMean(averages).value <= averages[j].1.value)
  {
    var c := Seconds(averages);
    var present := Present(c);
    SecondsAt(averages);
    if OverallMean(averages).Some? {
      var lo, hi := MinOf(present), MaxOf(present);
      var a :| 0 <= a < |present| && present[a] == lo;
      var b :| 0 <= b < |present| && present[b] == hi;
      PresentOrigin(c, a);
      PresentOrigin(c, b);
    }
  }

  /** The overall figure exists exactly when some branded listing has a
      discount percentage that reads as a number. */
  lemma OverallExists(parse: string -> Option<real>, table: seq<Listing>)
    ensures AverageDiscountPercentageByBrand(parse, table).overall.Some? <==>
            exists i :: 0 <= i < |table| && table[i].brand.Some? && Coerce(parse, table[i].discountPercentage).Some?
  {
    var rows := PercentageRows(parse, table);
    var averages := MeanBy(rows);
    if exists i :: 0 <= i < |table| && table[i].brand.Some? && Coerce(parse, table[i].discountPercentage).Some? {
      var i :| 0 <= i < |table| && table[i].brand.Some? && Coerce(parse, table[i].discountPercentage).Some?;
      var k := table[i].brand.value;
      ValuesHas(rows, k, i);
      MeanByExact(rows, k);
      MeanBounds(Values(rows, k));
      LookupIn(averages, k);
      var j :| 0 <= j < |averages| && averages[j] == (k, Lookup(averages, k).value);
      assert averages[j].1.Some?;
    }
    if exists j :: 0 <= j < |averages| && averages[j].1.Some? {
      var j :| 0 <= j < |averages| && averages[j].1.Some?;
      var k := averages[j].0;
      MeanByExact(rows, k);
      LookupAt(averages, j);
      MeanBounds(Values(rows, k));
      ValueOrigin(rows, k, 0);
      var i :| 0 <= i < |rows| && rows[i].0 == Some(k) && rows[i].1 == Some(Values(rows, k)[0]);
      assert table[i].brand.Some? && Coerce(parse, table[i].discountPercentage).Some?;
    }
  }

  /** Each brand mean, hence the overall figure, stays within any bounds
      that hold for every discount percentage of a branded listing. */
  lemma OverallWithinValues(parse: string -> Option<real>, table: seq<Listing>, lo: real, hi: real)
    requires forall i :: 0 <= i < |table| && table[i].brand.Some? && Coerce(parse, table[i].discountPercentage).Some? ==>
               lo <= Coerce(parse, table[i].discountPercentage).value <= hi
    ensures var v := AverageDiscountPercentageByBrand(parse, table);
            v.overall.Some? ==> lo <= v.overall.value <= hi
  {
    var rows := PercentageRows(parse, table);
    var averages := MeanBy(rows);
    var c := Seconds(averages);
    var present := Present(c);
    SecondsAt(averages);
    FirstsAt(averages);
    forall i | 0 <= i < |averages| && averages[i].1.Some?
      ensures lo <= averages[i].1.value <= hi
    {
      var k := averages[i].0;
      assert NoDuplicates(Firsts(averages)) by { MeanByExact(rows, k); }
      LookupAt(averages, i);
      MeanByExact(rows, k);
      var s := Values(rows, k);
      forall n | 0 <= n < |s| ensures lo <= s[n] <= hi {
        ValueOrigin(rows, k, n);
      }
      MeanWithin(s, lo, hi);
    }
    forall n | 0 <= n < |present| ensures lo <= present[n] <= hi {
      PresentOrigin(c, n);
    }
    if |present| > 0 {
      MeanWithin(present, lo, hi);
    }
  }
}
