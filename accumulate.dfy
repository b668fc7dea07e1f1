/** The index stage: read the inflation payload, join its monthly values onto
    the price series (0 where a month has none) and accumulate them. */
module Accumulate {
  import opened Wrappers
  import opened Domain
  import Text
  import Columns
  import opened Normalize

  /** One point of the index payload: its date (already a calendar date, the month
      and the day of the month) and its value as decimal-comma text. */
  datatype ApiPoint = ApiPoint(month: Month, day: int, valor: string)

  /** What the index service answers for a date window: a failed request, or the list of points. */
  datatype ApiResponse = RequestFailed | Payload(points: seq<ApiPoint>)

  /** A point of the index table once its value is read. */
  datatype IndexPoint = IndexPoint(month: Month, day: int, value: real)

  /** A row of the series after the index stage. */
  datatype AccRow = AccRow(month: Month, price: Option<real>, ipca: real, accumulated: real)

  predicate DistinctDates(points: seq<ApiPoint>) {
    forall i, j :: 0 <= i < j < |points| ==>
      points[i].month != points[j].month || points[i].day != points[j].day
  }

  predicate DistinctIndexDates(index: seq<IndexPoint>) {
    forall i, j :: 0 <= i < j < |index| ==>
      index[i].month != index[j].month || index[i].day != index[j].day
  }

  /** Reads every value of the payload, or fails (None) when one is not a numeral. */
  function ReadValues(points: seq<ApiPoint>): (r: Option<seq<IndexPoint>>)
    ensures r.Some? <==> forall i :: 0 <= i < |points| ==> Text.ReadDecimalComma(points[i].valor).Some?
    ensures r.Some? ==> |r.value| == |points| && forall i :: 0 <= i < |points| ==>
              r.value[i] == IndexPoint(points[i].month, points[i].day, Text.ReadDecimalComma(points[i].valor).value)
  {
    if points == [] then Some([])
    else
      match Text.ReadDecimalComma(points[0].valor)
      case None => None
      case Some(v) =>
        match ReadValues(points[1..])
        case None => None
        case Some(rest) => Some([IndexPoint(points[0].month, points[0].day, v)] + rest)
  }

  /** The index table built from the service's answer. A failed request is a request
      error; an empty list makes a frame with no "data" column (KeyError) and a value
      that is not a numeral makes astype(float) raise: both are payload errors. */
  function ReadIndex(response: ApiResponse): Result<seq<IndexPoint>, EtlError> {
    match response
    case RequestFailed => Err(IndexRequestFailed)
    case Payload(points) =>
      if points == [] then Err(IndexPayloadInvalid)
      else
        match ReadValues(points)
        case None => Err(IndexPayloadInvalid)
        case Some(index) => Ok(index)
  }

  /** The index stage fails exactly on a failed request, an empty list or an unreadable value;
      otherwise it keeps every point, its date and the number its text reads as. */
  lemma {:induction false} ReadIndexOutcome(response: ApiResponse)
    ensures ReadIndex(response).Err? <==>
              response.RequestFailed? || response.points == []
              || exists i :: 0 <= i < |response.points| && Text.ReadDecimalComma(response.points[i].valor).None?
    ensures response.RequestFailed? ==> ReadIndex(response) == Err(IndexRequestFailed)
    ensures ReadIndex(response).Ok? ==>
              var points, index := response.points, ReadIndex(response).value;
              |index| == |points| && forall i :: 0 <= i < |points| ==>
                index[i].month == points[i].month && index[i].day == points[i].day
                && Some(index[i].value) == Text.ReadDecimalComma(points[i].valor)
  {
  }

  /** The ipca cell of month m after the left merge and fillna(0): the value of the point
      dated the first day of m, or 0 when there is none. */
  function IndexValueAt(index: seq<IndexPoint>, m: Month): real {
    if index == [] then 0.0
    else if index[0].month == m && index[0].day == 1 then index[0].value
    else IndexValueAt(index[1..], m)
  }

  /** A month with a point dated its first day takes that point's value. */
  lemma {:induction false} IndexValueOfPoint(index: seq<IndexPoint>, k: nat)
    requires DistinctIndexDates(index) && k < |index| && index[k].day == 1
    ensures IndexValueAt(index, index[k].month) == index[k].value
  {
    if k > 0 {
      assert index[0].month != index[k].month || index[0].day != index[k].day;
      IndexValueOfPoint(index[1..], k - 1);
    }
  }

  /** A month with no point dated its first day counts as 0. */
  lemma {:induction false} IndexValueMissing(index: seq<IndexPoint>, m: Month)
    requires forall k :: 0 <= k < |index| ==> index[k].month != m || index[k].day != 1
    ensures IndexValueAt(index, m) == 0.0
  {
    if index != [] {
      IndexValueMissing(index[1..], m);
    }
  }

  /** The ipca column of the series. */
  function IndexColumn(series: seq<PriceRow>, index: seq<IndexPoint>): (r: seq<real>)
    ensures |r| == |series| && forall i :: 0 <= i < |series| ==> r[i] == IndexValueAt(index, series[i].month)
  {
    if series == [] then [] else [IndexValueAt(index, series[0].month)] + IndexColumn(series[1..], index)
  }

  /** The series with its ipca and ipca_acumulado columns added. */
  function WithIndex(series: seq<PriceRow>, ipca: seq<real>, acc: seq<real>): (r: seq<AccRow>)
    requires |ipca| == |series| && |acc| == |series|
    ensures |r| == |series| && forall i :: 0 <= i < |series| ==>
              r[i] == AccRow(series[i].month, series[i].price, ipca[i], acc[i])
  {
    if series == [] then []
    else [AccRow(series[0].month, series[0].price, ipca[0], acc[0])] + WithIndex(series[1..], ipca[1..], acc[1..])
  }

  /** Lines 73-75: merge, fillna(0) and cumsum. A left merge against two points of one
      date would repeat the row, so the index dates are distinct. */
  function Accumulate(series: seq<PriceRow>, index: seq<IndexPoint>): seq<AccRow>
    requires DistinctIndexDates(index)
  {
    var ipca := IndexColumn(series, index);
    WithIndex(series, ipca, Columns.RunningSum(ipca))
  }

  function IpcaOf(rows: seq<AccRow>): (r: seq<real>)
    ensures |r| == |rows| && forall i :: 0 <= i < |rows| ==> r[i] == rows[i].ipca
  {
    if rows == [] then [] else [rows[0].ipca] + IpcaOf(rows[1..])
  }

  /** The stage keeps every row, month and price in order, and gives each month its index value. */
  lemma AccumulateRows(series: seq<PriceRow>, index: seq<IndexPoint>, i: nat)
    requires DistinctIndexDates(index) && i < |series|
    ensures |Accumulate(series, index)| == |series|
    ensures var r := Accumulate(series, index);
            r[i].month == series[i].month && r[i].price == series[i].price
            && r[i].ipca == IndexValueAt(index, series[i].month)
  {
  }

  /** The accumulated index at row i is the sum of the index values of rows 0 to i,
      so consecutive accumulated values differ by the later row's index value. */
  lemma AccumulatedIsPrefixSum(series: seq<PriceRow>, index: seq<IndexPoint>, i: nat)
    requires DistinctIndexDates(index) && i < |series|
    ensures var r := Accumulate(series, index);
            && r[i].accumulated == Columns.Sum(IpcaOf(r)[..i + 1])
            && (i == 0 ==> r[0].accumulated == r[0].ipca)
            && (i > 0 ==> r[i].accumulated - r[i - 1].accumulated == r[i].ipca)
  {
    var ipca := IndexColumn(series, index);
    var r := Accumulate(series, index);
    assert IpcaOf(r) == ipca;
    Columns.RunningSumIsPrefixSum(ipca, i);
    Columns.RunningSumStep(ipca, i);
  }

  /** When every month's index value is 0, so is every accumulated value. */
  lemma AccumulatedZero(series: seq<PriceRow>, index: seq<IndexPoint>)
    requires DistinctIndexDates(index)
    requires forall i :: 0 <= i < |series| ==> IndexValueAt(index, series[i].month) == 0.0
    ensures forall i :: 0 <= i < |series| ==> Accumulate(series, index)[i].accumulated == 0.0
  {
    Columns.RunningSumOfZeros(IndexColumn(series, index));
  }
}
