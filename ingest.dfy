/** Row ingestion: the loaded listings table, numeric coercion of a column
    and the drop-missing filter that the views apply before aggregating. */
module Ingest {
  import opened Options
  import opened Columns

  /** A cell of the CSV file as loaded, before numeric coercion. */
  datatype RawCell = Blank | Text(text: string)

  /** One row of the listings table, restricted to the columns the views
      read. A blank brand is a missing group key. */
  datatype Listing = Listing(
    brand: Option<string>,
    sellingPrice: RawCell,
    rating: RawCell,
    discount: RawCell,
    discountPercentage: RawCell)

  /** Numeric coercion of one cell with unparseable text becoming missing.
      `parse` is how a string is read as a number; a blank cell is missing. */
  function Coerce(parse: string -> Option<real>, c: RawCell): (r: Option<real>)
    ensures c.Blank? ==> r.None?
    ensures c.Text? ==> r == parse(c.text)
  {
    match c
    case Blank => None
    case Text(t) => parse(t)
  }

  /** Outcome of the drop-missing step: the surviving values and whether the
      "missing or invalid values" warning is shown. */
  datatype Filtered<T> = Filtered(rows: seq<T>, warned: bool)

  /** Warn when any cell is missing, then drop the missing cells. Every
      present cell survives, at the position given by the number of present
      cells before it, so the original order is kept. */
  function DropMissing<T>(cells: seq<Option<T>>): (f: Filtered<T>)
    ensures f.warned <==> AnyMissing(cells)
    ensures f.warned <==> |f.rows| < |cells|
    ensures |f.rows| == |cells| - CountMissing(cells)
    ensures forall i :: 0 <= i < |cells| && cells[i].Some? ==>
              |Present(cells[..i])| < |f.rows| && f.rows[|Present(cells[..i])|] == cells[i].value
  {
    PresentShrinksIffMissing(cells);
    PresentLength(cells);
    PresentKeepsAll(cells);
    Filtered(Present(cells), AnyMissing(cells))
  }

  lemma PresentKeepsAll<T>(cells: seq<Option<T>>)
    ensures forall i :: 0 <= i < |cells| && cells[i].Some? ==>
              |Present(cells[..i])| < |Present(cells)| && Present(cells)[|Present(cells[..i])|] == cells[i].value
  {
    forall i | 0 <= i < |cells| && cells[i].Some?
      ensures |Present(cells[..i])| < |Present(cells)| && Present(cells)[|Present(cells[..i])|] == cells[i].value
    {
      PresentKeeps(cells, i);
    }
  }

  /** The coerced Selling Price column. */
  function PriceColumn(parse: string -> Option<real>, table: seq<Listing>): (c: seq<Option<real>>)
    ensures |c| == |table|
  {
    seq(|table|, i requires 0 <= i < |table| => Coerce(parse, table[i].sellingPrice))
  }

  /** A (Selling Price, Rating) pair, missing when either value is missing. */
  function Both(price: Option<real>, rating: Option<real>): (p: Option<(real, real)>)
    ensures p.Some? <==> price.Some? && rating.Some?
    ensures p.Some? ==> p.value == (price.value, rating.value)
  {
    if price.Some? && rating.Some? then Some((price.value, rating.value)) else None
  }

  /** The coerced (Selling Price, Rating) pairs, one per listing. */
  function PriceRatingCells(parse: string -> Option<real>, table: seq<Listing>): (c: seq<Option<(real, real)>>)
    ensures |c| == |table|
  {
    seq(|table|, i requires 0 <= i < |table| =>
      Both(Coerce(parse, table[i].sellingPrice), Coerce(parse, table[i].rating)))
  }

  /** Coerce Selling Price and Rating, then keep the rows where both are
      present, in their original order (no warning is shown in this view). */
  function PriceRatingRows(parse: string -> Option<real>, table: seq<Listing>): (r: seq<(real, real)>)
    ensures |r| == |table| - CountMissing(PriceRatingCells(parse, table))
    ensures forall n :: 0 <= n < |r| ==>
              exists i :: 0 <= i < |table| &&
                Coerce(parse, table[i].sellingPrice) == Some(r[n].0) && Coerce(parse, table[i].rating) == Some(r[n].1)
  {
    var cells := PriceRatingCells(parse, table);
    PresentLength(cells);
    PresentOriginAll(cells);
    Present(cells)
  }

  /** No valid (price, rating) row is lost and no incomplete one survives:
      listing i survives exactly when both of its values coerce, and then
      it lands after the survivors that precede it. */
  lemma PriceRatingRowsExact(parse: string -> Option<real>, table: seq<Listing>, i: nat)
    requires i < |table|
    ensures var p, r := Coerce(parse, table[i].sellingPrice), Coerce(parse, table[i].rating);
            (p.Some? && r.Some?) <==> PriceRatingCells(parse, table)[i].Some?
    ensures var p, r := Coerce(parse, table[i].sellingPrice), Coerce(parse, table[i].rating);
            var k := |Present(PriceRatingCells(parse, table)[..i])|;
            p.Some? && r.Some? ==>
              k < |PriceRatingRows(parse, table)| && PriceRatingRows(parse, table)[k] == (p.value, r.value)
  {
    var cells := PriceRatingCells(parse, table);
    if cells[i].Some? {
      PresentKeeps(cells, i);
    }
  }
}
