/** The "Memory and Storage Popularity" view over its hard-coded sample
    table: group by the (Memory, Storage) pair, pivot the pair counts into a
    Memory x Storage grid with 0 for the pairs that do not occur, and count
    the Storage values per Memory option. */
module Popularity {
  import opened Options
  import opened Columns
  import opened Grouping

  /** The sample's Memory and Storage columns. */
  const SampleMemory: seq<string> := ["4GB", "4GB", "6GB", "8GB", "8GB", "4GB", "6GB", "8GB", "4GB", "8GB"]
  const SampleStorage: seq<string> :=
    ["64GB", "128GB", "128GB", "256GB", "128GB", "64GB", "256GB", "256GB", "64GB", "256GB"]

  /** The sample table built from those two columns, row by row. */
  const SampleRows: seq<(string, string)> := [
    ("4GB", "64GB"), ("4GB", "128GB"), ("6GB", "128GB"), ("8GB", "256GB"), ("8GB", "128GB"),
    ("4GB", "64GB"), ("6GB", "256GB"), ("8GB", "256GB"), ("4GB", "64GB"), ("8GB", "256GB")]

  /** A pivot table: row labels, column labels and one count per
      (row, column) pair. */
  datatype Grid<A(==), B(==)> = Grid(index: seq<A>, columns: seq<B>, cells: map<(A, B), nat>)

  /** pivot(index = first key, columns = second key, values = count)
      followed by fillna(0). */
  function Pivot<A(==), B(==)>(counts: seq<((A, B), nat)>): (g: Grid<A, B>)
    ensures NoDuplicates(g.index) && NoDuplicates(g.columns)
  {
    var keys := Firsts(counts);
    var index := Distinct(Firsts(keys));
    var columns := Distinct(Seconds(keys));
    Grid(index, columns,
      map a, b | a in index && b in columns :: (a, b) := Lookup(counts, (a, b)).GetOr(0))
  }

  /** The table keyed by the (Memory, Storage) pair. */
  function PairRows<A, B>(rows: seq<(A, B)>): seq<(Option<(A, B)>, Option<B>)>
  {
    if rows == [] then [] else [(Some(rows[0]), Some(rows[0].1))] + PairRows(rows[1..])
  }

  datatype PopularityView<A(==), B(==)> = PopularityView(
    pairCounts: seq<((A, B), nat)>,
    grid: Grid<A, B>,
    perMemory: seq<(A, nat)>)

  function MemoryStoragePopularity<A(==), B(==)>(rows: seq<(A, B)>): PopularityView<A, B>
  {
    var pairCounts := SizeBy(PairRows(rows));
    PopularityView(pairCounts, Pivot(pairCounts), CountBy(Keyed(rows)))
  }

  // ---------------------------------------------------------------------
  // Lemmas
  // ---------------------------------------------------------------------

  lemma {:induction false} PairKeys<A, B>(rows: seq<(A, B)>)
    ensures KeyColumn(PairRows(rows)) == rows
    ensures forall i :: 0 <= i < |PairRows(rows)| ==> PairRows(rows)[i].1.Some?
  {
    if rows != [] {
      PairKeys(rows[1..]);
      assert PairRows(rows)[1..] == PairRows(rows[1..]);
    }
  }

  /** A value is a first component of the distinct pairs exactly when it is
      a first component of the pairs (likewise for second components). */
  lemma FirstsOfDistinct<A, B>(pairs: seq<(A, B)>, a: A, b: B)
    ensures a in Firsts(Distinct(pairs)) <==> a in Firsts(pairs)
    ensures b in Seconds(Distinct(pairs)) <==> b in Seconds(pairs)
  {
    FirstOfDistinct(pairs, a);
    SecondOfDistinct(pairs, b);
  }

  lemma FirstOfDistinct<A, B>(pairs: seq<(A, B)>, a: A)
    ensures a in Firsts(Distinct(pairs)) <==> a in Firsts(pairs)
  {
    var d := Distinct(pairs);
    FirstsAt(pairs);
    FirstsAt(d);
    var fp, fd := Firsts(pairs), Firsts(d);
    if a in fp {
      var i :| 0 <= i < |fp| && fp[i] == a;
      assert pairs[i] in d;
      var j :| 0 <= j < |d| && d[j] == pairs[i];
      assert fd[j] == a;
    }
    if a in fd {
      var j :| 0 <= j < |fd| && fd[j] == a;
      assert d[j] in pairs;
      var i :| 0 <= i < |pairs| && pairs[i] == d[j];
      assert fp[i] == a;
    }
  }

  lemma SecondOfDistinct<A, B>(pairs: seq<(A, B)>, b: B)
    ensures b in Seconds(Distinct(pairs)) <==> b in Seconds(pairs)
  {
    var d := Distinct(pairs);
    FirstsAt(pairs);
    FirstsAt(d);
    SecondsAt(pairs);
    SecondsAt(d);
    var sp, sd := Seconds(pairs), Seconds(d);
    if b in sp {
      var i :| 0 <= i < |sp| && sp[i] == b;
      assert pairs[i] in d;
      var j :| 0 <= j < |d| && d[j] == pairs[i];
      assert sd[j] == b;
    }
    if b in sd {
      var j :| 0 <= j < |sd| && sd[j] == b;
      assert d[j] in pairs;
      var i :| 0 <= i < |pairs| && pairs[i] == d[j];
      assert sp[i] == b;
    }
  }

  /** The pair counts hold every observed (Memory, Storage) pair once, with
      the number of rows carrying it. */
  lemma PairCountsExact<A, B>(rows: seq<(A, B)>, a: A, b: B)
    ensures var n := Count(rows, (a, b));
            Lookup(MemoryStoragePopularity(rows).pairCounts, (a, b)) == if n > 0 then Some(n) else None
    ensures NoDuplicates(Firsts(MemoryStoragePopularity(rows).pairCounts))
  {
    PairKeys(rows);
    SizeByExact(PairRows(rows), (a, b));
  }

  /** Grid completeness: the grid has a cell for every observed Memory
      option and every observed Storage option, and for nothing else; each
      cell holds the number of rows with that pair, 0 for a pair that never
      occurs. */
  lemma GridComplete<A, B>(rows: seq<(A, B)>, a: A, b: B)
    ensures var g := MemoryStoragePopularity(rows).grid;
            (a, b) in g.cells <==> a in Firsts(rows) && b in Seconds(rows)
    ensures var g := MemoryStoragePopularity(rows).grid;
            (a, b) in g.cells ==> g.cells[(a, b)] == Count(rows, (a, b))
  {
    var counts := MemoryStoragePopularity(rows).pairCounts;
    PairKeys(rows);
    SizeOverLookup(Keys(PairRows(rows)), PairRows(rows), (a, b));
    assert Firsts(counts) == Distinct(rows);
    FirstsOfDistinct(rows, a, b);
    PairCountsExact(rows, a, b);
  }

  lemma {:induction false} CountOverFull<K, V>(groups: seq<K>, rows: seq<(Option<K>, Option<V>)>)
    requires forall i :: 0 <= i < |rows| ==> rows[i].1.Some?
    ensures CountOver(groups, rows) == SizeOver(groups, rows)
  {
    if groups != [] {
      ValuesFull(rows, groups[0]);
      CountOverFull(groups[1..], rows);
    }
  }

  /** Storage values per Memory option: every observed Memory option once,
      with the number of rows that have it, and the counts add up to the
      number of rows. */
  lemma PerMemoryExact<A, B>(rows: seq<(A, B)>, a: A)
    ensures var n := Count(Firsts(rows), a);
            Lookup(MemoryStoragePopularity(rows).perMemory, a) == if n > 0 then Some(n) else None
    ensures Total(MemoryStoragePopularity(rows).perMemory) == |rows|
    ensures NoDuplicates(Firsts(MemoryStoragePopularity(rows).perMemory))
  {
    var mrows := Keyed(rows);
    KeyedColumns(rows);
    CountOverFull(Keys(mrows), mrows);
    SizeByExact(mrows, a);
    CountByExact(mrows, a);
    SizeByConserves(mrows);
    FirstsAt(rows);
  }

  /** Counts are conserved: the pair counts and the per-Memory counts each
      add up to the number of rows. */
  lemma CountsConserved<A, B>(rows: seq<(A, B)>)
    ensures Total(MemoryStoragePopularity(rows).pairCounts) == |rows|
    ensures Total(MemoryStoragePopularity(rows).perMemory) == |rows|
  {
    PairKeys(rows);
    SizeByConserves(PairRows(rows));
    var mrows := Keyed(rows);
    KeyedColumns(rows);
    CountOverFull(Keys(mrows), mrows);
    SizeByConserves(mrows);
    FirstsAt(rows);
  }

  /** The sample table holds (4GB, 64GB) and (8GB, 256GB) three times
      each. */
  lemma SamplePairCounts()
    ensures var v := MemoryStoragePopularity(SampleRows);
            && Lookup(v.pairCounts, ("4GB", "64GB")) == Some(3)
            && Lookup(v.pairCounts, ("8GB", "256GB")) == Some(3)
  {
    SampleFrequentPairs();
    PairCountsExact(SampleRows, "4GB", "64GB");
    PairCountsExact(SampleRows, "8GB", "256GB");
  }

  // The sample's concrete facts, each computed on its own.

  /** The sample rows are the two sample columns side by side. */
  lemma SampleColumns()
    ensures Firsts(SampleRows) == SampleMemory && Seconds(SampleRows) == SampleStorage
  {
    SampleMemoryColumn();
    SampleStorageColumn();
  }

  lemma SampleMemoryColumn()
    ensures Firsts(SampleRows) == SampleMemory
  {
  }

  lemma SampleStorageColumn()
    ensures Seconds(SampleRows) == SampleStorage
  {
  }

  /** Two pairs occur three times each. */
  lemma SampleFrequentPairs()
    ensures Count(SampleRows, ("4GB", "64GB")) == 3
    ensures Count(SampleRows, ("8GB", "256GB")) == 3
  {
  }

  /** Three pairs never occur. */
  lemma SampleAbsentPair(a: string, b: string)
    requires (a, b) == ("4GB", "256GB") || (a, b) == ("6GB", "64GB") || (a, b) == ("8GB", "64GB")
    ensures Count(SampleRows, (a, b)) == 0
  {
  }

  /** A sample grid cell for a pair that never occurs is present and 0. */
  lemma SampleGridZero(a: string, b: string)
    requires (a, b) == ("4GB", "256GB") || (a, b) == ("6GB", "64GB") || (a, b) == ("8GB", "64GB")
    ensures var g := MemoryStoragePopularity(SampleRows).grid;
            (a, b) in g.cells && g.cells[(a, b)] == 0
  {
    SampleColumns();
    SampleAbsentPair(a, b);
    assert a in SampleMemory && b in SampleStorage;
    GridComplete(SampleRows, a, b);
  }

  lemma SampleMemoryTally()
    ensures Count(SampleMemory, "4GB") == 4
    ensures Count(SampleMemory, "6GB") == 2
    ensures Count(SampleMemory, "8GB") == 4
  {
  }

  /** The sample table has 4, 2 and 4 rows with 4GB, 6GB and 8GB, 10 in all. */
  lemma SampleMemoryCounts()
    ensures var v := MemoryStoragePopularity(SampleRows);
            && Lookup(v.perMemory, "4GB") == Some(4)
            && Lookup(v.perMemory, "6GB") == Some(2)
            && Lookup(v.perMemory, "8GB") == Some(4)
            && Total(v.perMemory) == 10
  {
    SampleColumns();
    SampleMemoryTally();
    PerMemoryExact(SampleRows, "4GB");
    PerMemoryExact(SampleRows, "6GB");
    PerMemoryExact(SampleRows, "8GB");
  }
}
