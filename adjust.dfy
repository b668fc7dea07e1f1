/** The correction stage: restate every price in the purchasing power of the
    reference month, using the accumulated index at that month. */
module Adjust {
  import opened Wrappers
  import opened Domain
  import opened Accumulate

  /** A row of the series after the correction; adjusted is cmdty_vl_rs_um. */
  datatype AdjustedRow = AdjustedRow(month: Month, price: Option<real>, ipca: real, accumulated: real,
                                     adjusted: Option<real>)

  /** The accumulated index of the first row of the reference month, as .values[0]
      reads it; None where .values is empty and the lookup raises. */
  function BaseAccumulated(rows: seq<AccRow>): (r: Option<real>)
    ensures r.None? <==> forall i :: 0 <= i < |rows| ==> rows[i].month != BaseMonth
  {
    if rows == [] then None
    else if rows[0].month == BaseMonth then Some(rows[0].accumulated)
    else BaseAccumulated(rows[1..])
  }

  /** price * (1 + (base - accumulated) / 100): the price restated in the reference month. */
  function Corrected(price: real, base: real, accumulated: real): real {
    price * (1.0 + (base - accumulated) / 100.0)
  }

  /** The corrected cell; a NaN price stays NaN. */
  function CorrectedCell(price: Option<real>, base: real, accumulated: real): Option<real> {
    if price.None? then None else Some(Corrected(price.value, base, accumulated))
  }

  /** The series with the corrected price column added. */
  function AdjustRows(rows: seq<AccRow>, base: real): (r: seq<AdjustedRow>)
    ensures |r| == |rows| && forall i :: 0 <= i < |rows| ==>
              r[i] == AdjustedRow(rows[i].month, rows[i].price, rows[i].ipca, rows[i].accumulated,
                                  CorrectedCell(rows[i].price, base, rows[i].accumulated))
  {
    if rows == [] then []
    else
      [AdjustedRow(rows[0].month, rows[0].price, rows[0].ipca, rows[0].accumulated,
                   CorrectedCell(rows[0].price, base, rows[0].accumulated))]
      + AdjustRows(rows[1..], base)
  }

  /** Lines 82-83: the lookup of the reference month, then the correction of every row. */
  function Adjust(rows: seq<AccRow>): Result<seq<AdjustedRow>, EtlError> {
    match BaseAccumulated(rows)
    case None => Err(BaseMonthMissing)
    case Some(base) => Ok(AdjustRows(rows, base))
  }

  /** The stage fails, with the missing-reference error, exactly when no row is of the reference month. */
  lemma AdjustFails(rows: seq<AccRow>)
    ensures Adjust(rows).Err? <==> forall i :: 0 <= i < |rows| ==> rows[i].month != BaseMonth
    ensures Adjust(rows).Err? ==> Adjust(rows).error == BaseMonthMissing
  {
  }

  predicate DistinctAccMonths(rows: seq<AccRow>) {
    forall i, j :: 0 <= i < j < |rows| ==> rows[i].month != rows[j].month
  }

  /** With one row per month, the base value is the accumulated index of the reference month's row. */
  lemma {:induction false} BaseAccumulatedAt(rows: seq<AccRow>, b: nat)
    requires DistinctAccMonths(rows) && b < |rows| && rows[b].month == BaseMonth
    ensures BaseAccumulated(rows) == Some(rows[b].accumulated)
  {
    if b > 0 {
      assert rows[0].month != rows[b].month;
      BaseAccumulatedAt(rows[1..], b - 1);
    }
  }

  /** Every row keeps its month, price and index columns, and its corrected price is
      price * (1 + (acc_base - acc_i) / 100) where acc_base is the reference month's. */
  lemma AdjustFormula(rows: seq<AccRow>, b: nat, i: nat)
    requires DistinctAccMonths(rows) && b < |rows| && rows[b].month == BaseMonth && i < |rows|
    ensures Adjust(rows).Ok? && |Adjust(rows).value| == |rows|
    ensures var r := Adjust(rows).value;
            && r[i].month == rows[i].month && r[i].price == rows[i].price
            && r[i].ipca == rows[i].ipca && r[i].accumulated == rows[i].accumulated
            && (rows[i].price.Some? ==>
                  r[i].adjusted == Some(Corrected(rows[i].price.value, rows[b].accumulated, rows[i].accumulated)))
            && (rows[i].price.None? ==> r[i].adjusted.None?)
  {
    BaseAccumulatedAt(rows, b);
    var r := AdjustRows(rows, rows[b].accumulated);
    assert Adjust(rows).value == r;
  }

  /** At the reference month the corrected price is the raw price. */
  lemma BaseMonthIdentity(rows: seq<AccRow>, b: nat)
    requires DistinctAccMonths(rows) && b < |rows| && rows[b].month == BaseMonth
    ensures Adjust(rows).Ok? && |Adjust(rows).value| == |rows|
    ensures Adjust(rows).value[b].adjusted == rows[b].price
  {
    BaseAccumulatedAt(rows, b);
  }

  /** When the accumulated index never moves (every index value is 0), no price changes. */
  lemma FlatIndexKeepsPrices(rows: seq<AccRow>)
    requires exists b :: 0 <= b < |rows| && rows[b].month == BaseMonth
    requires forall i, j :: 0 <= i < j < |rows| ==> rows[i].accumulated == rows[j].accumulated
    ensures Adjust(rows).Ok? && |Adjust(rows).value| == |rows|
    ensures forall i :: 0 <= i < |rows| ==> Adjust(rows).value[i].adjusted == rows[i].price
  {
    var base := BaseAccumulated(rows).value;
    assert exists b :: 0 <= b < |rows| && rows[b].accumulated == base by {
      BaseAccumulatedFound(rows);
    }
    var b :| 0 <= b < |rows| && rows[b].accumulated == base;
    forall i | 0 <= i < |rows| ensures rows[i].accumulated == base {
      if i < b {
        assert rows[i].accumulated == rows[b].accumulated;
      } else if b < i {
        assert rows[b].accumulated == rows[i].accumulated;
      }
    }
  }

  lemma {:induction false} BaseAccumulatedFound(rows: seq<AccRow>)
    requires BaseAccumulated(rows).Some?
    ensures exists b :: 0 <= b < |rows| && rows[b].month == BaseMonth
                        && rows[b].accumulated == BaseAccumulated(rows).value
  {
    if rows[0].month != BaseMonth {
      BaseAccumulatedFound(rows[1..]);
      var b :| 0 <= b < |rows[1..]| && rows[1..][b].month == BaseMonth
                && rows[1..][b].accumulated == BaseAccumulated(rows[1..]).value;
      assert rows[b + 1] == rows[1..][b];
    }
  }
}
