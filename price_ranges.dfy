/** The "Sales Volume by Price Range" view: coerce Selling Price, warn about
    and drop the missing prices, cut the prices into six labelled ranges
    with pd.cut, and report the number of listings and the mean price of
    each range. */
module PriceRanges {
  import opened Options
  import opened Columns
  import opened Stats
  import opened Ingest
  import opened Grouping

  /** The six labels of the cut, in edge order. */
  datatype PriceRange = Upto10k | From10kTo20k | From20kTo30k | From30kTo40k | From40kTo50k | Above50k
  {
    function Label(): string
    {
      match this
      case Upto10k => "0-10k"
      case From10kTo20k => "10k-20k"
      case From20kTo30k => "20k-30k"
      case From30kTo40k => "30k-40k"
      case From40kTo50k => "40k-50k"
      case Above50k => "50k+"
    }

    /** The edge below the range. */
    function Lower(): real
    {
      match this
      case Upto10k => 0.0
      case From10kTo20k => 10000.0
      case From20kTo30k => 20000.0
      case From30kTo40k => 30000.0
      case From40kTo50k => 40000.0
      case Above50k => 50000.0
    }

    /** The edge above the range; `top` is the last edge, max price + 1. */
    function Upper(top: real): real
    {
      match this
      case Upto10k => 10000.0
      case From10kTo20k => 20000.0
      case From20kTo30k => 30000.0
      case From30kTo40k => 40000.0
      case From40kTo50k => 50000.0
      case Above50k => top
    }
  }

  /** All categories of the cut column, in order. */
  const AllRanges: seq<PriceRange> :=
    [Upto10k, From10kTo20k, From20kTo30k, From30kTo40k, From40kTo50k, Above50k]

  /** The bin edges passed to pd.cut for a column whose maximum is maxPrice. */
  function Edges(maxPrice: real): seq<real>
  {
    [0.0, 10000.0, 20000.0, 30000.0, 40000.0, 50000.0, maxPrice + 1.0]
  }

  /** The first six edges are fixed, increasing and within [0, 50000]; the
      last lies above the largest price, so that price is inside the cut. */
  lemma EdgesShape(maxPrice: real)
    ensures |Edges(maxPrice)| == 7 && maxPrice < Edges(maxPrice)[6]
    ensures StrictlyIncreasing(Edges(maxPrice)[..6])
    ensures forall i :: 0 <= i < 6 ==> 0.0 <= Edges(maxPrice)[i] <= 50000.0
  {
  }

  /** p lies in the right-closed interval of r; with include_lowest the
      first interval is closed at 0 as well. */
  predicate InRange(p: real, r: PriceRange, top: real)
  {
    (if r == Upto10k then 0.0 <= p else r.Lower() < p) && p <= r.Upper(top)
  }

  predicate NonDecreasing(e: seq<real>)
  {
    forall i, j :: 0 <= i < j < |e| ==> e[i] <= e[j]
  }

  predicate StrictlyIncreasing(e: seq<real>)
  {
    forall i, j :: 0 <= i < j < |e| ==> e[i] < e[j]
  }

  /** The two ways pd.cut rejects these edges: "bins must increase
      monotonically" and "Bin edges must be unique". */
  datatype CutError = NonMonotonicBins | DuplicateBinEdges

  /** pd.cut's checks of the edges. The maximum of an empty column is NaN
      (`None`), and an edge list holding NaN is not monotonic under the
      `Index.is_monotonic_increasing` test that current pandas uses. */
  function CheckBins(maxPrice: Option<real>): (e: Option<CutError>)
    ensures e.None? <==> maxPrice.Some? && maxPrice.value + 1.0 > 50000.0
    ensures e == Some(DuplicateBinEdges) <==> maxPrice.Some? && maxPrice.value + 1.0 == 50000.0
  {
    match maxPrice
    case None => Some(NonMonotonicBins)
    case Some(m) =>
      EdgeOrder(m);
      if !NonDecreasing(Edges(m)) then Some(NonMonotonicBins)
      else if !NoDuplicates(Edges(m)) then Some(DuplicateBinEdges)
      else None
  }

  /** The edges pass exactly when they are strictly increasing. */
  lemma CheckBinsExact(maxPrice: Option<real>)
    ensures CheckBins(maxPrice).None? <==> maxPrice.Some? && StrictlyIncreasing(Edges(maxPrice.value))
  {
    if maxPrice.Some? {
      EdgeOrder(maxPrice.value);
    }
  }

  /** The edges are in order up to the last one, so their order depends
      only on how max + 1 compares with 50000. */
  lemma EdgeOrder(m: real)
    ensures NonDecreasing(Edges(m)) <==> m + 1.0 >= 50000.0
    ensures StrictlyIncreasing(Edges(m)) <==> m + 1.0 > 50000.0
    ensures NonDecreasing(Edges(m)) ==> (NoDuplicates(Edges(m)) <==> m + 1.0 != 50000.0)
  {
    var e := Edges(m);
    assert e[5] == 50000.0 && e[6] == m + 1.0;
  }

  /** The label pd.cut gives p, once the edges have passed CheckBins;
      `None` (NaN) for a value outside every interval. */
  function Cut(p: real, top: real): (r: Option<PriceRange>)
    requires top > 50000.0
    ensures r.Some? <==> 0.0 <= p <= top
    ensures r.Some? ==> InRange(p, r.value, top)
  {
    if p < 0.0 || p > top then None
    else if p <= 10000.0 then Some(Upto10k)
    else if p <= 20000.0 then Some(From10kTo20k)
    else if p <= 30000.0 then Some(From20kTo30k)
    else if p <= 40000.0 then Some(From30kTo40k)
    else if p <= 50000.0 then Some(From40kTo50k)
    else Some(Above50k)
  }

  /** The intervals do not overlap: a value lies in at most one of them. */
  lemma InRangeUnique(p: real, r1: PriceRange, r2: PriceRange, top: real)
    requires top > 50000.0
    requires InRange(p, r1, top) && InRange(p, r2, top)
    ensures r1 == r2
  {
  }

  /** Bucketing is exact: a value gets label r if and only if it lies in
      r's interval, so every value of [0, top] gets exactly one label. */
  lemma CutExact(p: real, r: PriceRange, top: real)
    requires top > 50000.0
    ensures Cut(p, top) == Some(r) <==> InRange(p, r, top)
  {
    if InRange(p, r, top) {
      InRangeUnique(p, r, Cut(p, top).value, top);
    }
  }

  /** Where the largest price lands: in "50k+" when it exceeds 50000, and
      in "40k-50k" when it lies in (49999, 50000]. */
  lemma MaxPriceRange(m: real)
    requires m + 1.0 > 50000.0
    ensures Cut(m, m + 1.0) == Some(if m > 50000.0 then Above50k else From40kTo50k)
  {
  }

  // ---------------------------------------------------------------------
  // The view
  // ---------------------------------------------------------------------

  /** The table after the cut: each price with its label as group key. */
  function LabelledPrices(prices: seq<real>, top: real): (rows: seq<(Option<PriceRange>, Option<real>)>)
    requires top > 50000.0
    ensures |rows| == |prices|
    ensures forall i :: 0 <= i < |prices| ==> rows[i] == (Cut(prices[i], top), Some(prices[i]))
  {
    if prices == [] then []
    else [(Cut(prices[0], top), Some(prices[0]))] + LabelledPrices(prices[1..], top)
  }

  /** Number of prices lying in r's interval. */
  function CountInRange(prices: seq<real>, r: PriceRange, top: real): nat
  {
    if prices == [] then 0
    else (if InRange(prices[0], r, top) then 1 else 0) + CountInRange(prices[1..], r, top)
  }

  datatype PriceTables = PriceTables(
    volume: seq<(PriceRange, nat)>,
    averagePrice: seq<(PriceRange, Option<real>)>)

  /** Cut the prices with top edge `top` and group by the cut column. The
      grouping lists all six categories, also the empty ones (size 0, mean
      missing). */
  function CutTables(prices: seq<real>, top: real): PriceTables
    requires top > 50000.0
  {
    var rows := LabelledPrices(prices, top);
    PriceTables(SizeOver(AllRanges, rows), MeanOver(AllRanges, rows))
  }

  /** Cut the surviving prices with top edge max + 1 and group. Fails as
      pd.cut does when the edges are not strictly increasing. */
  function PriceRangeTables(prices: seq<real>): (t: Result<PriceTables, CutError>)
    ensures t.Err? <==> prices == [] || MaxOf(prices) + 1.0 <= 50000.0
  {
    if prices == [] then Err(CheckBins(None).value)
    else
      var m := MaxOf(prices);
      match CheckBins(Some(m))
      case Some(e) => Err(e)
      case None => Ok(CutTables(prices, m + 1.0))
  }

  datatype SalesView = SalesView(
    warned: bool,
    prices: seq<real>,
    tables: Result<PriceTables, CutError>)

  /** The whole view: coerce, warn, drop, cut and group. */
  function SalesVolumeByPriceRange(parse: string -> Option<real>, table: seq<Listing>): (v: SalesView)
    ensures v.warned <==> exists i :: 0 <= i < |table| && Coerce(parse, table[i].sellingPrice).None?
    ensures |v.prices| == |table| - CountMissing(PriceColumn(parse, table))
    ensures forall i :: 0 <= i < |table| && Coerce(parse, table[i].sellingPrice).Some? ==>
              var k := |Present(PriceColumn(parse, table)[..i])|;
              k < |v.prices| && v.prices[k] == Coerce(parse, table[i].sellingPrice).value
    ensures v.tables == PriceRangeTables(v.prices)
  {
    var column := PriceColumn(parse, table);
    var f := DropMissing(column);
    assert forall i :: 0 <= i < |table| ==> column[i] == Coerce(parse, table[i].sellingPrice);
    SalesView(f.warned, f.rows, PriceRangeTables(f.rows))
  }

  lemma {:induction false} SizeIsCountInRange(prices: seq<real>, r: PriceRange, top: real)
    requires top > 50000.0
    ensures Size(LabelledPrices(prices, top), r) == CountInRange(prices, r, top)
  {
    if prices != [] {
      var rows := LabelledPrices(prices, top);
      assert rows[1..] == LabelledPrices(prices[1..], top);
      SizeIsCountInRange(prices[1..], r, top);
      CutExact(prices[0], r, top);
      var col := KeyColumn(rows);
      if Cut(prices[0], top).Some? {
        assert col == [Cut(prices[0], top).value] + KeyColumn(rows[1..]);
        assert col[1..] == KeyColumn(rows[1..]);
        assert Count(col, r) == (if col[0] == r then 1 else 0) + Count(col[1..], r);
      } else {
        assert col == KeyColumn(rows[1..]) by {
          assert col == [] + KeyColumn(rows[1..]);
        }
      }
    }
  }

  /** What a successful cut yields, spelled out. */
  lemma TablesAt(prices: seq<real>)
    requires PriceRangeTables(prices).Ok?
    ensures prices != [] && MaxOf(prices) + 1.0 > 50000.0
    ensures PriceRangeTables(prices).value == CutTables(prices, MaxOf(prices) + 1.0)
  {
    var m := MaxOf(prices);
    assert CheckBins(Some(m)).None?;
  }

  /** The displayed labels are those passed to the cut, in category order,
      and they are pairwise different, as an ordered cut requires. */
  lemma LabelsDistinct(r: PriceRange, q: PriceRange)
    ensures [AllRanges[0].Label(), AllRanges[1].Label(), AllRanges[2].Label(),
             AllRanges[3].Label(), AllRanges[4].Label(), AllRanges[5].Label()]
         == ["0-10k", "10k-20k", "20k-30k", "30k-40k", "40k-50k", "50k+"]
    ensures r.Label() == q.Label() ==> r == q
  {
    if r.Label() == q.Label() {
      assert r.Label()[..2] == q.Label()[..2];
    }
  }

  /** Every label is one of the six categories. */
  lemma AllRangesComplete(r: PriceRange)
    ensures r in AllRanges
  {
    match r
    case Upto10k =>
    case From10kTo20k =>
    case From20kTo30k =>
    case From30kTo40k =>
    case From40kTo50k =>
    case Above50k =>
  }

  lemma LabelledVolume(prices: seq<real>, top: real, r: PriceRange)
    requires top > 50000.0
    ensures Lookup(SizeOver(AllRanges, LabelledPrices(prices, top)), r) == Some(CountInRange(prices, r, top))
  {
    SizeOverLookup(AllRanges, LabelledPrices(prices, top), r);
    AllRangesComplete(r);
    SizeIsCountInRange(prices, r, top);
  }

  /** Sales volume: one entry per label, in label order, holding the number
      of surviving prices that lie in that label's interval. */
  lemma VolumeCountsInterval(prices: seq<real>, r: PriceRange)
    requires PriceRangeTables(prices).Ok?
    ensures Firsts(PriceRangeTables(prices).value.volume) == AllRanges
    ensures Lookup(PriceRangeTables(prices).value.volume, r) == Some(CountInRange(prices, r, MaxOf(prices) + 1.0))
  {
    TablesAt(prices);
    var top := MaxOf(prices) + 1.0;
    SizeOverLookup(AllRanges, LabelledPrices(prices, top), r);
    LabelledVolume(prices, top, r);
  }

  /** Counts are conserved: with no negative price every surviving price
      lies in [0, max], so the volumes add up to the number of prices. */
  lemma VolumeConserved(prices: seq<real>)
    requires PriceRangeTables(prices).Ok?
    requires forall i :: 0 <= i < |prices| ==> prices[i] >= 0.0
    ensures Total(PriceRangeTables(prices).value.volume) == |prices|
  {
    TablesAt(prices);
    var top := MaxOf(prices) + 1.0;
    var rows := LabelledPrices(prices, top);
    KeyColumnFull(rows);
    assert NoDuplicates(AllRanges);
    var col := KeyColumn(rows);
    forall i | 0 <= i < |col| ensures col[i] in AllRanges {
      AllRangesComplete(col[i]);
    }
    SizeOverConserves(AllRanges, rows);
  }

  /** Every value of group r lies in r's interval. */
  lemma GroupValuesInRange(prices: seq<real>, top: real, r: PriceRange)
    requires top > 50000.0
    ensures forall n :: 0 <= n < |Values(LabelledPrices(prices, top), r)| ==>
              InRange(Values(LabelledPrices(prices, top), r)[n], r, top)
  {
    var rows := LabelledPrices(prices, top);
    forall n | 0 <= n < |Values(rows, r)| ensures InRange(Values(rows, r)[n], r, top) {
      ValueOrigin(rows, r, n);
      var j :| 0 <= j < |rows| && rows[j].0 == Some(r) && rows[j].1 == Some(Values(rows, r)[n]);
      CutExact(prices[j], r, top);
    }
  }

  /** A mean of values that all lie in r's interval lies there too. */
  lemma MeanInRange(s: seq<real>, r: PriceRange, top: real)
    requires |s| > 0
    requires forall n :: 0 <= n < |s| ==> InRange(s[n], r, top)
    ensures Mean(s).Some? && InRange(Mean(s).value, r, top)
  {
    var lo, hi := r.Lower(), r.Upper(top);
    MeanWithin(s, lo, hi);
    if r != Upto10k {
      MeanAbove(s, lo);
    }
  }

  /** The average selling price of a range lies inside that range. */
  lemma AveragePriceInRange(prices: seq<real>, r: PriceRange, a: real)
    requires PriceRangeTables(prices).Ok?
    requires Lookup(PriceRangeTables(prices).value.averagePrice, r) == Some(Some(a))
    ensures InRange(a, r, MaxOf(prices) + 1.0)
  {
    TablesAt(prices);
    var top := MaxOf(prices) + 1.0;
    var rows := LabelledPrices(prices, top);
    MeanOverLookup(AllRanges, rows, r);
    assert Mean(Values(rows, r)) == Some(a);
    GroupValuesInRange(prices, top, r);
    MeanInRange(Values(rows, r), r, top);
  }
}
