/** Group-by aggregation as pandas performs it here: rows whose key is
    missing belong to no group; `size` counts the rows of a group, `count`
    its non-missing values, and `mean` averages the non-missing values,
    giving a missing mean for a group that has none. A result is a sequence
    of (key, aggregate) pairs with pairwise different keys. */
module Grouping {
  import opened Options
  import opened Columns
  import opened Stats

  /** The keys of the rows that have one, in row order. */
  function KeyColumn<K, V>(rows: seq<(Option<K>, V)>): seq<K>
  {
    if rows == [] then []
    else (if rows[0].0.Some? then [rows[0].0.value] else []) + KeyColumn(rows[1..])
  }

  /** A table whose cells are all present, read as a keyed table: the first
      entry of each row is the key, the second the value column. */
  function Keyed<K, V>(rows: seq<(K, V)>): seq<(Option<K>, Option<V>)>
  {
    if rows == [] then [] else [(Some(rows[0].0), Some(rows[0].1))] + Keyed(rows[1..])
  }

  /** The size of group k: the number of rows whose key is k. */
  function Size<K(==), V>(rows: seq<(Option<K>, V)>, k: K): nat
  {
    Count(KeyColumn(rows), k)
  }

  /** The groups that occur, each once. */
  function Keys<K(==), V>(rows: seq<(Option<K>, V)>): seq<K>
  {
    Distinct(KeyColumn(rows))
  }

  /** The non-missing values of group k, in row order. */
  function Values<K(==), V>(rows: seq<(Option<K>, Option<V>)>, k: K): seq<V>
  {
    if rows == [] then []
    else
      (if rows[0].0 == Some(k) && rows[0].1.Some? then [rows[0].1.value] else [])
      + Values(rows[1..], k)
  }

  /** The aggregate recorded for key k, if k is one of the result's keys. */
  function Lookup<K(==), V>(r: seq<(K, V)>, k: K): Option<V>
  {
    if r == [] then None
    else if r[0].0 == k then Some(r[0].1)
    else Lookup(r[1..], k)
  }

  /** Sum of the counts of a result. */
  function Total<K>(r: seq<(K, nat)>): nat
  {
    if r == [] then 0 else r[0].1 + Total(r[1..])
  }

  // ---------------------------------------------------------------------
  // Aggregation over a given list of groups (a categorical key lists all
  // of its categories, observed or not)
  // ---------------------------------------------------------------------

  function SizeOver<K(==), V>(groups: seq<K>, rows: seq<(Option<K>, V)>): seq<(K, nat)>
  {
    if groups == [] then []
    else [(groups[0], Size(rows, groups[0]))] + SizeOver(groups[1..], rows)
  }

  function CountOver<K(==), V>(groups: seq<K>, rows: seq<(Option<K>, Option<V>)>): seq<(K, nat)>
  {
    if groups == [] then []
    else [(groups[0], |Values(rows, groups[0])|)] + CountOver(groups[1..], rows)
  }

  function MeanOver<K(==)>(groups: seq<K>, rows: seq<(Option<K>, Option<real>)>): seq<(K, Option<real>)>
  {
    if groups == [] then []
    else [(groups[0], Mean(Values(rows, groups[0])))] + MeanOver(groups[1..], rows)
  }

  // ---------------------------------------------------------------------
  // Aggregation over the observed groups: groupby(key).size(),
  // groupby(key)[col].count(), groupby(key)[col].mean()
  // ---------------------------------------------------------------------

  function SizeBy<K(==), V>(rows: seq<(Option<K>, V)>): seq<(K, nat)>
  {
    SizeOver(Keys(rows), rows)
  }

  function CountBy<K(==), V>(rows: seq<(Option<K>, Option<V>)>): seq<(K, nat)>
  {
    CountOver(Keys(rows), rows)
  }

  function MeanBy<K(==)>(rows: seq<(Option<K>, Option<real>)>): seq<(K, Option<real>)>
  {
    MeanOver(Keys(rows), rows)
  }

  // ---------------------------------------------------------------------
  // What each result holds
  // ---------------------------------------------------------------------

  lemma {:induction false} SizeOverLookup<K, V>(groups: seq<K>, rows: seq<(Option<K>, V)>, k: K)
    ensures Lookup(SizeOver(groups, rows), k) == if k in groups then Some(Size(rows, k)) else None
    ensures Firsts(SizeOver(groups, rows)) == groups
  {
    if groups != [] {
      var r := SizeOver(groups, rows);
      assert r == [(groups[0], Size(rows, groups[0]))] + SizeOver(groups[1..], rows);
      assert r[0].0 == groups[0] && r[1..] == SizeOver(groups[1..], rows);
      SizeOverLookup(groups[1..], rows, k);
      assert k in groups <==> k == groups[0] || k in groups[1..];
    }
  }

  lemma {:induction false} CountOverLookup<K, V>(groups: seq<K>, rows: seq<(Option<K>, Option<V>)>, k: K)
    ensures Lookup(CountOver(groups, rows), k) == if k in groups then Some(|Values(rows, k)|) else None
    ensures Firsts(CountOver(groups, rows)) == groups
  {
    if groups != [] {
      var r := CountOver(groups, rows);
      assert r == [(groups[0], |Values(rows, groups[0])|)] + CountOver(groups[1..], rows);
      assert r[0].0 == groups[0] && r[1..] == CountOver(groups[1..], rows);
      CountOverLookup(groups[1..], rows, k);
      assert k in groups <==> k == groups[0] || k in groups[1..];
    }
  }

  lemma {:induction false} MeanOverLookup<K>(groups: seq<K>, rows: seq<(Option<K>, Option<real>)>, k: K)
    ensures Lookup(MeanOver(groups, rows), k) == if k in groups then Some(Mean(Values(rows, k))) else None
    ensures Firsts(MeanOver(groups, rows)) == groups
  {
    if groups != [] {
      var r := MeanOver(groups, rows);
      assert r == [(groups[0], Mean(Values(rows, groups[0])))] + MeanOver(groups[1..], rows);
      assert r[0].0 == groups[0] && r[1..] == MeanOver(groups[1..], rows);
      MeanOverLookup(groups[1..], rows, k);
      assert k in groups <==> k == groups[0] || k in groups[1..];
    }
  }

  /** A key is one of the observed groups exactly when some row carries it. */
  lemma KeysExact<K, V>(rows: seq<(Option<K>, V)>, k: K)
    ensures k in Keys(rows) <==> Size(rows, k) > 0
    ensures NoDuplicates(Keys(rows))
  {
    var col := KeyColumn(rows);
    CountPositive(col, k);
    if k in col {
      var i :| 0 <= i < |col| && col[i] == k;
      assert col[i] in Distinct(col);
    }
    if k in Distinct(col) {
      var i :| 0 <= i < |Distinct(col)| && Distinct(col)[i] == k;
      assert Distinct(col)[i] in col;
    }
  }

  /** groupby(key).size(): exactly the observed keys, each once, each with
      the number of rows that carry it. */
  lemma SizeByExact<K, V>(rows: seq<(Option<K>, V)>, k: K)
    ensures Lookup(SizeBy(rows), k) == if Size(rows, k) > 0 then Some(Size(rows, k)) else None
    ensures NoDuplicates(Firsts(SizeBy(rows)))
  {
    KeysExact(rows, k);
    SizeOverLookup(Keys(rows), rows, k);
  }

  /** groupby(key)[col].count(): exactly the observed keys, each with the
      number of non-missing values in its group. */
  lemma CountByExact<K, V>(rows: seq<(Option<K>, Option<V>)>, k: K)
    ensures Lookup(CountBy(rows), k) == if Size(rows, k) > 0 then Some(|Values(rows, k)|) else None
    ensures NoDuplicates(Firsts(CountBy(rows)))
  {
    KeysExact(rows, k);
    CountOverLookup(Keys(rows), rows, k);
  }

  /** groupby(key)[col].mean(): exactly the observed keys, each with the
      mean of the non-missing values of its group (missing when there are
      none). */
  lemma MeanByExact<K>(rows: seq<(Option<K>, Option<real>)>, k: K)
    ensures Lookup(MeanBy(rows), k) == if Size(rows, k) > 0 then Some(Mean(Values(rows, k))) else None
    ensures NoDuplicates(Firsts(MeanBy(rows)))
  {
    KeysExact(rows, k);
    MeanOverLookup(Keys(rows), rows, k);
  }

  // ---------------------------------------------------------------------
  // Conservation and bounds
  // ---------------------------------------------------------------------

  lemma {:induction false} TotalSizeOver<K, V>(groups: seq<K>, rows: seq<(Option<K>, V)>)
    ensures Total(SizeOver(groups, rows)) == SumCounts(groups, KeyColumn(rows))
  {
    if groups != [] {
      TotalSizeOver(groups[1..], rows);
    }
  }

  /** Counts are conserved: when the groups are pairwise different and
      cover every key that occurs, the sizes add up to the number of rows
      that have a key. */
  lemma SizeOverConserves<K, V>(groups: seq<K>, rows: seq<(Option<K>, V)>)
    requires NoDuplicates(groups)
    requires forall i :: 0 <= i < |KeyColumn(rows)| ==> KeyColumn(rows)[i] in groups
    ensures Total(SizeOver(groups, rows)) == |KeyColumn(rows)|
  {
    TotalSizeOver(groups, rows);
    CountsAddUp(groups, KeyColumn(rows));
  }

  /** The sizes of groupby(key).size() add up to the number of keyed rows. */
  lemma SizeByConserves<K, V>(rows: seq<(Option<K>, V)>)
    ensures Total(SizeBy(rows)) == |KeyColumn(rows)|
  {
    var col := KeyColumn(rows);
    forall i | 0 <= i < |col| ensures col[i] in Keys(rows) {
      assert col[i] in Distinct(col);
    }
    SizeOverConserves(Keys(rows), rows);
  }

  /** The key column is the first column with its missing cells dropped. */
  lemma {:induction false} KeyColumnPresent<K, V>(rows: seq<(Option<K>, V)>)
    ensures KeyColumn(rows) == Present(Firsts(rows))
  {
    if rows != [] {
      KeyColumnPresent(rows[1..]);
      assert Firsts(rows) == [rows[0].0] + Firsts(rows[1..]);
      assert Firsts(rows)[1..] == Firsts(rows[1..]);
    }
  }

  /** Every complete row is keyed: the key column is the first column, one
      key per row, and no value is missing. */
  lemma {:induction false} KeyedColumns<K, V>(rows: seq<(K, V)>)
    ensures KeyColumn(Keyed(rows)) == Firsts(rows)
    ensures |Keyed(rows)| == |rows|
    ensures forall i :: 0 <= i < |Keyed(rows)| ==> Keyed(rows)[i].1.Some?
  {
    if rows != [] {
      KeyedColumns(rows[1..]);
      assert Keyed(rows)[1..] == Keyed(rows[1..]);
    }
  }

  /** Every row has a key when no key is missing. */
  lemma {:induction false} KeyColumnFull<K, V>(rows: seq<(Option<K>, V)>)
    requires forall i :: 0 <= i < |rows| ==> rows[i].0.Some?
    ensures |KeyColumn(rows)| == |rows|
  {
    if rows != [] {
      assert forall i :: 0 <= i < |rows[1..]| ==> rows[1..][i] == rows[i + 1];
      KeyColumnFull(rows[1..]);
    }
  }

  /** Each value of group k comes from a row whose key is k. */
  lemma {:induction false} ValueOrigin<K, V>(rows: seq<(Option<K>, Option<V>)>, k: K, n: nat)
    requires n < |Values(rows, k)|
    ensures exists j :: 0 <= j < |rows| && rows[j].0 == Some(k) && rows[j].1 == Some(Values(rows, k)[n])
  {
    if rows[0].0 == Some(k) && rows[0].1.Some? && n == 0 {
      assert rows[0].1 == Some(Values(rows, k)[0]);
    } else {
      var n' := if rows[0].0 == Some(k) && rows[0].1.Some? then n - 1 else n;
      ValueOrigin(rows[1..], k, n');
      var j :| 0 <= j < |rows[1..]| && rows[1..][j].0 == Some(k) && rows[1..][j].1 == Some(Values(rows[1..], k)[n']);
      assert rows[j + 1] == rows[1..][j];
    }
  }

  /** A row with key k and a present value puts that value into group k, so
      the group is non-empty and k is one of the keys. */
  lemma {:induction false} ValuesHas<K, V>(rows: seq<(Option<K>, Option<V>)>, k: K, i: nat)
    requires i < |rows| && rows[i].0 == Some(k) && rows[i].1.Some?
    ensures |Values(rows, k)| > 0
    ensures Size(rows, k) > 0
  {
    var col := KeyColumn(rows);
    assert col == (if rows[0].0.Some? then [rows[0].0.value] else []) + KeyColumn(rows[1..]);
    if i > 0 {
      ValuesHas(rows[1..], k, i - 1);
      CountPositive(KeyColumn(rows[1..]), k);
    }
    CountPositive(col, k);
  }

  /** With no value missing, a group holds one value per row. */
  lemma {:induction false} ValuesFull<K, V>(rows: seq<(Option<K>, Option<V>)>, k: K)
    requires forall i :: 0 <= i < |rows| ==> rows[i].1.Some?
    ensures |Values(rows, k)| == Size(rows, k)
  {
    if rows != [] {
      assert forall i :: 0 <= i < |rows[1..]| ==> rows[1..][i] == rows[i + 1];
      ValuesFull(rows[1..], k);
      var col := KeyColumn(rows);
      if rows[0].0.Some? {
        assert col == [rows[0].0.value] + KeyColumn(rows[1..]);
        assert col[0] == rows[0].0.value && col[1..] == KeyColumn(rows[1..]);
        assert Count(col, k) == (if col[0] == k then 1 else 0) + Count(col[1..], k);
      } else {
        assert col == KeyColumn(rows[1..]) by {
          assert col == [] + KeyColumn(rows[1..]);
        }
        assert Values(rows, k) == [] + Values(rows[1..], k);
      }
    }
  }

  /** Each group mean lies between the smallest and the largest value of
      that group; it is missing only for a group with no value. */
  lemma MeanByBounds<K>(rows: seq<(Option<K>, Option<real>)>, k: K, m: real)
    requires Lookup(MeanBy(rows), k) == Some(Some(m))
    ensures |Values(rows, k)| > 0
    ensures MinOf(Values(rows, k)) <= m <= MaxOf(Values(rows, k))
  {
    MeanByExact(rows, k);
    MeanBounds(Values(rows, k));
  }
}
