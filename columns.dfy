/** Column-level building blocks shared by every view: dropping missing
    cells, counting occurrences and listing the distinct values of a column. */
module Columns {
  import opened Options

  // ---------------------------------------------------------------------
  // Dropping missing cells
  // ---------------------------------------------------------------------

  /** The values of the non-missing cells, in their original order. */
  function Present<T>(cells: seq<Option<T>>): seq<T>
  {
    if cells == [] then []
    else (if cells[0].Some? then [cells[0].value] else []) + Present(cells[1..])
  }

  /** Number of missing cells. */
  function CountMissing<T>(cells: seq<Option<T>>): nat
  {
    if cells == [] then 0
    else (if cells[0].None? then 1 else 0) + CountMissing(cells[1..])
  }

  predicate AnyMissing<T>(cells: seq<Option<T>>)
  {
    exists i :: 0 <= i < |cells| && cells[i].None?
  }

  /** Dropping distributes over concatenation. */
  lemma {:induction false} PresentAppend<T>(a: seq<Option<T>>, b: seq<Option<T>>)
    ensures Present(a + b) == Present(a) + Present(b)
  {
    if a == [] {
      assert a + b == b;
    } else {
      assert (a + b)[0] == a[0];
      assert (a + b)[1..] == a[1..] + b;
      PresentAppend(a[1..], b);
    }
  }

  /** Exactly the missing cells are removed. */
  lemma {:induction false} PresentLength<T>(cells: seq<Option<T>>)
    ensures |Present(cells)| == |cells| - CountMissing(cells)
    ensures CountMissing(cells) <= |cells|
  {
    if cells != [] {
      PresentLength(cells[1..]);
    }
  }

  /** Something is dropped exactly when some cell is missing. */
  lemma PresentShrinksIffMissing<T>(cells: seq<Option<T>>)
    ensures AnyMissing(cells) <==> |Present(cells)| < |cells|
  {
    PresentLength(cells);
    MissingCounted(cells);
  }

  lemma {:induction false} MissingCounted<T>(cells: seq<Option<T>>)
    ensures AnyMissing(cells) <==> CountMissing(cells) > 0
  {
    if cells != [] {
      MissingCounted(cells[1..]);
      if AnyMissing(cells[1..]) {
        var i :| 0 <= i < |cells[1..]| && cells[1..][i].None?;
        assert cells[i + 1].None?;
      }
      if cells[0].Some? && AnyMissing(cells) {
        var i :| 0 <= i < |cells| && cells[i].None?;
        assert cells[1..][i - 1].None?;
      }
    }
  }

  /** Every present cell survives: the cell at position i lands at position
      |Present(cells[..i])|, the number of present cells before it. */
  lemma PresentKeeps<T>(cells: seq<Option<T>>, i: nat)
    requires i < |cells| && cells[i].Some?
    ensures |Present(cells[..i])| < |Present(cells)|
    ensures Present(cells)[|Present(cells[..i])|] == cells[i].value
  {
    assert cells == cells[..i] + ([cells[i]] + cells[i + 1..]);
    PresentAppend(cells[..i], [cells[i]] + cells[i + 1..]);
    assert ([cells[i]] + cells[i + 1..])[1..] == cells[i + 1..];
  }

  /** Every surviving value comes from a present cell. */
  lemma {:induction false} PresentOrigin<T>(cells: seq<Option<T>>, n: nat)
    requires n < |Present(cells)|
    ensures exists i :: 0 <= i < |cells| && cells[i] == Some(Present(cells)[n])
  {
    if cells[0].Some? && n == 0 {
      assert cells[0] == Some(Present(cells)[0]);
    } else {
      var n' := if cells[0].Some? then n - 1 else n;
      PresentOrigin(cells[1..], n');
      var i :| 0 <= i < |cells[1..]| && cells[1..][i] == Some(Present(cells[1..])[n']);
      assert cells[i + 1] == cells[1..][i];
    }
  }

  /** Something survives the drop exactly when some cell is present. */
  lemma {:induction false} PresentNonEmpty<T>(cells: seq<Option<T>>)
    ensures |Present(cells)| > 0 <==> exists i :: 0 <= i < |cells| && cells[i].Some?
  {
    if cells != [] {
      PresentNonEmpty(cells[1..]);
      if exists i :: 0 <= i < |cells[1..]| && cells[1..][i].Some? {
        var i :| 0 <= i < |cells[1..]| && cells[1..][i].Some?;
        assert cells[i + 1].Some?;
      }
      if cells[0].None? && exists i :: 0 <= i < |cells| && cells[i].Some? {
        var i :| 0 <= i < |cells| && cells[i].Some?;
        assert cells[1..][i - 1].Some?;
      }
    }
  }

  /** Every value left after the drop came from a present cell. */
  lemma {:induction false} PresentOriginAll<T>(cells: seq<Option<T>>)
    ensures forall n :: 0 <= n < |Present(cells)| ==> Some(Present(cells)[n]) in cells
  {
    forall n | 0 <= n < |Present(cells)| ensures Some(Present(cells)[n]) in cells {
      PresentOrigin(cells, n);
    }
  }

  /** Survivors keep their relative order: a present cell before another
      present cell is placed strictly before it. */
  lemma PresentKeepsOrder<T>(cells: seq<Option<T>>, i: nat, j: nat)
    requires i < j < |cells| && cells[i].Some?
    ensures |Present(cells[..i])| < |Present(cells[..j])|
  {
    assert cells[..j] == cells[..i] + ([cells[i]] + cells[i + 1..j]);
    PresentAppend(cells[..i], [cells[i]] + cells[i + 1..j]);
    assert ([cells[i]] + cells[i + 1..j])[1..] == cells[i + 1..j];
  }

  // ---------------------------------------------------------------------
  // Occurrences and distinct values
  // ---------------------------------------------------------------------

  /** Number of positions of xs holding x. */
  function Count<T(==)>(xs: seq<T>, x: T): nat
  {
    if xs == [] then 0
    else (if xs[0] == x then 1 else 0) + Count(xs[1..], x)
  }

  lemma {:induction false} CountPositive<T>(xs: seq<T>, x: T)
    ensures Count(xs, x) > 0 <==> x in xs
  {
    if xs != [] {
      CountPositive(xs[1..], x);
      assert x in xs <==> xs[0] == x || x in xs[1..];
    }
  }

  lemma {:induction false} CountAppend<T>(a: seq<T>, b: seq<T>)
    ensures forall x :: Count(a + b, x) == Count(a, x) + Count(b, x)
  {
    if a == [] {
      assert a + b == b;
    } else {
      assert (a + b)[0] == a[0] && (a + b)[1..] == a[1..] + b;
      CountAppend(a[1..], b);
    }
  }

  /** The first column of a table of pairs. */
  function Firsts<A, B>(pairs: seq<(A, B)>): seq<A>
  {
    if pairs == [] then [] else [pairs[0].0] + Firsts(pairs[1..])
  }

  /** The second column of a table of pairs. */
  function Seconds<A, B>(pairs: seq<(A, B)>): seq<B>
  {
    if pairs == [] then [] else [pairs[0].1] + Seconds(pairs[1..])
  }

  /** The first column has one entry per pair, taken from that pair. */
  lemma {:induction false} FirstsAt<A, B>(pairs: seq<(A, B)>)
    ensures |Firsts(pairs)| == |pairs|
    ensures forall i :: 0 <= i < |pairs| ==> Firsts(pairs)[i] == pairs[i].0
  {
    if pairs != [] {
      FirstsAt(pairs[1..]);
    }
  }

  /** The second column has one entry per pair, taken from that pair. */
  lemma {:induction false} SecondsAt<A, B>(pairs: seq<(A, B)>)
    ensures |Seconds(pairs)| == |pairs|
    ensures forall i :: 0 <= i < |pairs| ==> Seconds(pairs)[i] == pairs[i].1
  {
    if pairs != [] {
      SecondsAt(pairs[1..]);
    }
  }

  predicate NoDuplicates<T(==)>(xs: seq<T>)
  {
    forall i, j :: 0 <= i < j < |xs| ==> xs[i] != xs[j]
  }

  /** The distinct values of xs, each listed once (at its last appearance). */
  function Distinct<T(==)>(xs: seq<T>): (r: seq<T>)
    ensures NoDuplicates(r)
    ensures forall i :: 0 <= i < |r| ==> r[i] in xs
    ensures forall i :: 0 <= i < |xs| ==> xs[i] in r
  {
    if xs == [] then []
    else
      var rest := Distinct(xs[1..]);
      if xs[0] in rest then rest else [xs[0]] + rest
  }

  /** Sum over ks of the number of occurrences in xs of each k. */
  function SumCounts<T(==)>(ks: seq<T>, xs: seq<T>): nat
  {
    if ks == [] then 0 else Count(xs, ks[0]) + SumCounts(ks[1..], xs)
  }

  /** Prepending x to xs adds one to the sum when x is one of the
      (pairwise different) ks, and nothing otherwise. */
  lemma {:induction false} SumCountsCons<T>(ks: seq<T>, x: T, xs: seq<T>)
    requires NoDuplicates(ks)
    ensures SumCounts(ks, [x] + xs) == SumCounts(ks, xs) + (if x in ks then 1 else 0)
  {
    if ks != [] {
      assert ([x] + xs)[1..] == xs;
      assert NoDuplicates(ks[1..]) by {
        forall i, j | 0 <= i < j < |ks[1..]| ensures ks[1..][i] != ks[1..][j] {
          assert ks[1..][i] == ks[i + 1] && ks[1..][j] == ks[j + 1];
        }
      }
      SumCountsCons(ks[1..], x, xs);
      assert x in ks <==> x == ks[0] || x in ks[1..];
      if x == ks[0] {
        assert x !in ks[1..] by {
          forall i | 0 <= i < |ks[1..]| ensures ks[1..][i] != x {
            assert ks[1..][i] == ks[i + 1];
          }
        }
      }
    }
  }

  /** Conservation: when the distinct ks cover every value of xs, the
      per-value counts add up to the length of xs. */
  lemma {:induction false} CountsAddUp<T>(ks: seq<T>, xs: seq<T>)
    requires NoDuplicates(ks)
    requires forall i :: 0 <= i < |xs| ==> xs[i] in ks
    ensures SumCounts(ks, xs) == |xs|
  {
    if xs == [] {
      SumCountsOfEmpty(ks);
    } else {
      assert xs == [xs[0]] + xs[1..];
      CountsAddUp(ks, xs[1..]);
      SumCountsCons(ks, xs[0], xs[1..]);
    }
  }

  lemma {:induction false} SumCountsOfEmpty<T>(ks: seq<T>)
    ensures SumCounts(ks, []) == 0
  {
    if ks != [] {
      SumCountsOfEmpty(ks[1..]);
    }
  }
}
