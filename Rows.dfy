/**
 The row pipeline of dse_bot.py: rows without a security or a closing price are
 dropped (`dropna`), then each remaining row gets its cleaned change and its
 trend (two `apply` calls). A missing cell is `None`; the closing price is of
 any type `P`, since the pipeline only passes it through.
 */
module Rows {
  import opened Wrappers
  import opened Sequences
  import opened Decimals
  import opened Percent
  import opened Trends

  /** A row of the projected table: security, closing price and the text of the change cell. */
  datatype RawRow<P> = RawRow(security: Option<string>, closingPrice: Option<P>, change: string)

  /** A row after annotation, with the two columns the script adds. */
  datatype Row<P> = Row(security: Option<string>, closingPrice: Option<P>, change: string,
                        changePercent: Dec, trend: Trend)

  predicate IsComplete<P>(r: RawRow<P>) {
    r.security.Some? && r.closingPrice.Some?
  }

  predicate IsIncomplete<P>(r: RawRow<P>) {
    !IsComplete(r)
  }

  /** The rows `dropna` removes. */
  function Dropped<P>(rows: seq<RawRow<P>>): (r: seq<RawRow<P>>)
    ensures forall i :: 0 <= i < |r| ==> IsIncomplete(r[i])
  {
    Filter(rows, IsIncomplete)
  }

  /**
   `dropna(subset=["Security", "Closing Price"])`: exactly the complete rows,
   in their original order, each as often as in the input; the length drops
   by the number of removed rows.
   */
  function DropIncomplete<P>(rows: seq<RawRow<P>>): (r: seq<RawRow<P>>)
    ensures forall i :: 0 <= i < |r| ==> IsComplete(r[i])
    ensures IsSubsequence(r, rows)
    ensures forall x :: x in rows && IsComplete(x) ==> multiset(r)[x] == multiset(rows)[x]
    ensures |r| == |rows| - |Dropped(rows)|
  {
    FilterIsSubsequence(rows, IsComplete);
    FilterPartition(rows, IsComplete, IsIncomplete);
    forall x | x in rows && IsComplete(x) ensures multiset(Filter(rows, IsComplete))[x] == multiset(rows)[x] {
      FilterCount(rows, IsComplete, x);
    }
    Filter(rows, IsComplete)
  }

  /** The raw row an annotated row came from. */
  function Original<P>(row: Row<P>): RawRow<P> {
    RawRow(row.security, row.closingPrice, row.change)
  }

  /** The trend of a row is the sign of its cleaned change. */
  predicate TrendAgrees<P>(row: Row<P>) {
    && (row.trend == Up <==> ToReal(row.changePercent) > 0.0)
    && (row.trend == Down <==> ToReal(row.changePercent) < 0.0)
    && (row.trend == Flat <==> ToReal(row.changePercent) == 0.0)
  }

  function AnnotateRow<P>(r: RawRow<P>): (row: Row<P>)
    ensures Original(row) == r
    ensures row.changePercent == CleanPercent(r.change)
    ensures TrendAgrees(row)
  {
    var c := CleanPercent(r.change);
    Row(r.security, r.closingPrice, r.change, c, Classify(c))
  }

  /**
   The two `apply` calls over the whole table: one annotated row per row, in
   the same order, with the original cells untouched.
   */
  function Annotate<P>(rows: seq<RawRow<P>>): (r: seq<Row<P>>)
    ensures |r| == |rows|
    ensures forall i :: 0 <= i < |r| ==> Original(r[i]) == rows[i]
    ensures forall i :: 0 <= i < |r| ==> r[i].changePercent == CleanPercent(rows[i].change)
    ensures forall i :: 0 <= i < |r| ==> TrendAgrees(r[i])
  {
    if rows == [] then [] else [AnnotateRow(rows[0])] + Annotate(rows[1..])
  }

  /** The raw rows behind a sequence of annotated rows. */
  function Originals<P>(rows: seq<Row<P>>): (r: seq<RawRow<P>>)
    ensures |r| == |rows|
    ensures forall i :: 0 <= i < |r| ==> r[i] == Original(rows[i])
  {
    seq(|rows|, i requires 0 <= i < |rows| => Original(rows[i]))
  }

  /**
   Lines 63, 74 and 76 together: the output holds exactly the complete input
   rows, in order, each with its cleaned change and a trend that agrees with it.
   */
  function Process<P>(rows: seq<RawRow<P>>): (r: seq<Row<P>>)
    ensures |r| == |rows| - |Dropped(rows)|
    ensures Originals(r) == DropIncomplete(rows)
    ensures IsSubsequence(Originals(r), rows)
    ensures forall i :: 0 <= i < |r| ==> r[i].security.Some? && r[i].closingPrice.Some?
    ensures forall i :: 0 <= i < |r| ==> r[i].changePercent == CleanPercent(r[i].change)
    ensures forall i :: 0 <= i < |r| ==> TrendAgrees(r[i])
  {
    var kept := DropIncomplete(rows);
    var r := Annotate(kept);
    assert Originals(r) == kept;
    r
  }
}
