/** The script as it runs: df_cepea is one frame whose columns each stage reassigns in
    place, and the run is the sequence of those stage steps, proved to compute Etl. */
module Script {
  import opened Wrappers
  import opened Domain
  import Columns
  import opened Normalize
  import opened Accumulate
  import Adjust
  import Upsert
  import Refine
  import opened Pipeline

  function MonthsOf(rows: seq<PriceRow>): (r: seq<Month>)
    ensures |r| == |rows| && forall i :: 0 <= i < |rows| ==> r[i] == rows[i].month
  {
    if rows == [] then [] else [rows[0].month] + MonthsOf(rows[1..])
  }

  function ZipPrices(dates: seq<Month>, valor: seq<Option<real>>): (r: seq<PriceRow>)
    requires |valor| == |dates|
    ensures |r| == |dates| && forall i :: 0 <= i < |dates| ==> r[i] == PriceRow(dates[i], valor[i])
  {
    if dates == [] then [] else [PriceRow(dates[0], valor[0])] + ZipPrices(dates[1..], valor[1..])
  }

  function ZipCorrected(rows: seq<AccRow>, corrigido: seq<Option<real>>): (r: seq<Adjust.AdjustedRow>)
    requires |corrigido| == |rows|
    ensures |r| == |rows| && forall i :: 0 <= i < |rows| ==>
              r[i] == Adjust.AdjustedRow(rows[i].month, rows[i].price, rows[i].ipca, rows[i].accumulated, corrigido[i])
  {
    if rows == [] then []
    else [Adjust.AdjustedRow(rows[0].month, rows[0].price, rows[0].ipca, rows[0].accumulated, corrigido[0])]
         + ZipCorrected(rows[1..], corrigido[1..])
  }

  function CorrectedColumn(rows: seq<Adjust.AdjustedRow>): (r: seq<Option<real>>)
    ensures |r| == |rows| && forall i :: 0 <= i < |rows| ==> r[i] == rows[i].adjusted
  {
    if rows == [] then [] else [rows[0].adjusted] + CorrectedColumn(rows[1..])
  }

  /** df_cepea: the monthly frame. Its columns are dt_cmdty, Valor, ipca, ipca_acumulado
      and cmdty_vl_rs_um; a column the run has not added yet is empty. */
  class CepeaFrame {
    var dates: seq<Month>
    var valor: seq<Option<real>>
    var ipca: seq<real>
    var acumulado: seq<real>
    var corrigido: seq<Option<real>>

    /** The frame holds its dates and prices, one price per date. */
    predicate Priced()
      reads this
    {
      |valor| == |dates|
    }

    /** The frame also holds its index columns, one value per date. */
    predicate Indexed()
      reads this
    {
      Priced() && |ipca| == |dates| && |acumulado| == |dates|
    }

    /** The frame also holds its corrected price column. */
    predicate Corrected()
      reads this
    {
      Indexed() && |corrigido| == |dates|
    }

    function Series(): seq<PriceRow>
      reads this
      requires Priced()
    {
      ZipPrices(dates, valor)
    }

    function IndexedSeries(): seq<AccRow>
      reads this
      requires Indexed()
    {
      WithIndex(Series(), ipca, acumulado)
    }

    function CorrectedSeries(): seq<Adjust.AdjustedRow>
      reads this
      requires Corrected()
    {
      ZipCorrected(IndexedSeries(), corrigido)
    }

    /** Line 59: the frame built from the calendar merged with the sheet's rows. */
    constructor (table: seq<PriceRow>)
      ensures Priced() && dates == MonthsOf(table) && valor == Prices(table) && Series() == table
      ensures ipca == [] && acumulado == [] && corrigido == []
    {
      dates := MonthsOf(table);
      valor := Prices(table);
      ipca, acumulado, corrigido := [], [], [];
    }

    /** Line 60: the Valor column forward-filled in place. */
    method FillPrices()
      modifies this
      requires Priced()
      ensures Priced() && dates == old(dates) && valor == Columns.FillForward(old(valor))
      ensures ipca == old(ipca) && acumulado == old(acumulado) && corrigido == old(corrigido)
    {
      valor := Columns.ForwardFill(valor);
    }

    /** Lines 73-75: the ipca column joined in, 0 where a month has none, and its running sum. */
    method MergeIndex(index: seq<IndexPoint>)
      modifies this
      requires Priced() && DistinctIndexDates(index)
      ensures Indexed() && dates == old(dates) && valor == old(valor) && corrigido == old(corrigido)
      ensures IndexedSeries() == Accumulate.Accumulate(Series(), index)
    {
      ipca := IndexColumn(Series(), index);
      acumulado := Columns.CumulativeSum(ipca);
    }

    /** Lines 82-83: the lookup of March 2025 and the corrected price column; the missing
        reference month is reported and leaves the frame as it was. */
    method CorrectByIndex() returns (failure: Option<EtlError>)
      modifies this
      requires Indexed()
      ensures Indexed() && dates == old(dates) && valor == old(valor)
      ensures ipca == old(ipca) && acumulado == old(acumulado)
      ensures var run := Adjust.Adjust(IndexedSeries());
              && (failure.Some? <==> run.Err?)
              && (run.Err? ==> failure == Some(run.error) && corrigido == old(corrigido))
              && (run.Ok? ==> Corrected() && CorrectedSeries() == run.value)
    {
      var base := Adjust.BaseAccumulated(IndexedSeries());
      if base.None? {
        return Some(BaseMonthMissing);
      }
      var rows := Adjust.AdjustRows(IndexedSeries(), base.value);
      corrigido := CorrectedColumn(rows);
      failure := None;
    }
  }

  /** Filling the frame's prices gives the normalised series. */
  lemma FrameOfPrepared(t: seq<PriceRow>, f: seq<Option<real>>)
    requires |f| == |t|
    ensures ZipPrices(MonthsOf(t), f) == WithPrices(t, f)
  {
  }

  /** The script body: the frame is built from the prepared sheet and filled, then the
      remaining stages run on it; the run computes exactly Etl. */
  method Run(sheet: seq<SheetRow>, fetch: IndexService, existing: Option<seq<Upsert.StoredRow>>, etlDate: Day)
    returns (outcome: Result<RunOutput, EtlError>)
    requires ServiceDistinct(fetch) && StoreDistinct(existing)
    ensures outcome == Etl(sheet, fetch, existing, etlDate)
  {
    NormalizeOfPrepared(sheet);
    var prepared := Prepare(sheet);
    if prepared.Err? {
      return Err(prepared.error);
    }
    var frame := new CepeaFrame(prepared.value);
    frame.FillPrices();
    FrameOfPrepared(prepared.value, frame.valor);
    EtlOfSeries(sheet, fetch, existing, etlDate, frame.Series());
    outcome := RunStages(frame, fetch, existing, etlDate);
  }

  /** Lines 66-149 on the filled frame: the index, the correction, the upsert and the refined view. */
  method RunStages(frame: CepeaFrame, fetch: IndexService, existing: Option<seq<Upsert.StoredRow>>, etlDate: Day)
    returns (outcome: Result<RunOutput, EtlError>)
    modifies frame
    requires frame.Priced() && Consecutive(frame.Series())
    requires ServiceDistinct(fetch) && StoreDistinct(existing)
    ensures outcome == EtlFromSeries(old(frame.Series()), fetch, existing, etlDate)
    ensures outcome.Ok? ==> frame.Corrected()
    ensures outcome.Ok? ==> frame.dates == old(frame.dates) && frame.valor == old(frame.valor)
    ensures outcome.Ok? ==> && Upsert.DistinctStoredMonths(outcome.value.store)
                            && outcome.value.refined == Refine.Refine(frame.CorrectedSeries(), outcome.value.store, etlDate)
  {
    var series := frame.Series();
    ghost var dates, valor := frame.dates, frame.valor;
    var response := fetch(frame.dates[0], frame.dates[|frame.dates| - 1]);
    var index := ReadIndex(response);
    if index.Err? {
      return Err(index.error);
    }
    assert frame.dates[0] == series[0].month && frame.dates[|frame.dates| - 1] == series[|series| - 1].month;
    FromSeriesIndexed(series, fetch, existing, etlDate, index.value);
    FromIndexStages(series, index.value, existing, etlDate);
    frame.MergeIndex(index.value);
    assert frame.dates == dates && frame.valor == valor && frame.Series() == series;
    var failure := frame.CorrectByIndex();
    if failure.Some? {
      return Err(failure.value);
    }
    assert frame.Corrected() && frame.dates == dates && frame.valor == valor;
    var adjusted := frame.CorrectedSeries();
    var store := Upsert.Upsert(NewRows(adjusted), Previous(existing));
    UpsertDistinct(NewRows(adjusted), Previous(existing));
    outcome := Ok(RunOutput(store, Refine.Refine(adjusted, store, etlDate)));
  }
}
