/** The script body: the stages run in order on the monthly frame, the first one
    that fails ends the run with its error, then the stored table is upserted and
    the refined view is built. */
module Pipeline {
  import opened Wrappers
  import opened Domain
  import Columns
  import opened Normalize
  import opened Accumulate
  import opened Adjust
  import opened Upsert
  import opened Refine

  /** What a successful run leaves: the table it writes back and the refined output. */
  datatype RunOutput = RunOutput(store: seq<StoredRow>, refined: seq<RefinedRow>)

  /** The index service: its answer for the window from a first to a last month. */
  type IndexService = (Month, Month) -> ApiResponse

  /** The service never lists two points of one date. */
  ghost predicate ServiceDistinct(fetch: IndexService) {
    forall lo: Month, hi: Month :: fetch(lo, hi).Payload? ==> DistinctDates(fetch(lo, hi).points)
  }

  /** A stored table, when there is one, has one row per date. */
  predicate StoreDistinct(existing: Option<seq<StoredRow>>) {
    existing.Some? ==> DistinctStoredMonths(existing.value)
  }

  /** Lines 93-98: the stored table, or an empty one when the file does not exist. */
  function Previous(existing: Option<seq<StoredRow>>): (r: seq<StoredRow>)
    ensures existing.None? ==> r == []
    ensures existing.Some? ==> r == existing.value
  {
    if existing.Some? then existing.value else []
  }

  /** The dt_cmdty and cmdty_vl_rs_um columns the upsert takes from the series. */
  function NewRows(rows: seq<AdjustedRow>): (r: seq<NewRow>)
    ensures |r| == |rows| && forall i :: 0 <= i < |rows| ==> r[i] == NewRow(rows[i].month, rows[i].adjusted)
  {
    if rows == [] then [] else [NewRow(rows[0].month, rows[0].adjusted)] + NewRows(rows[1..])
  }

  /** The index read from a service that lists each date once has each date once. */
  lemma IndexDatesDistinct(response: ApiResponse, index: seq<IndexPoint>)
    requires response.Payload? ==> DistinctDates(response.points)
    requires ReadIndex(response) == Ok(index)
    ensures DistinctIndexDates(index)
  {
    ReadIndexOutcome(response);
  }

  /** The corrected series keeps the months of the normalised series, one row each. */
  lemma AdjustedMonths(series: seq<PriceRow>, index: seq<IndexPoint>, adjusted: seq<AdjustedRow>)
    requires DistinctIndexDates(index)
    requires Consecutive(series)
    requires Adjust.Adjust(Accumulate.Accumulate(series, index)) == Ok(adjusted)
    ensures |adjusted| == |series|
    ensures forall i :: 0 <= i < |series| ==> adjusted[i].month == series[i].month
    ensures DistinctNewMonths(NewRows(adjusted))
  {
    var acc := Accumulate.Accumulate(series, index);
    assert adjusted == AdjustRows(acc, BaseAccumulated(acc).value);
    forall i | 0 <= i < |series| ensures adjusted[i].month == series[i].month {
      AccumulateRows(series, index, i);
    }
    var news := NewRows(adjusted);
    forall i, j | 0 <= i < j < |news| ensures news[i].month != news[j].month {
      assert news[i].month == series[0].month + i && news[j].month == series[0].month + j;
    }
  }

  /** The upserted table has one row per date. */
  lemma UpsertDistinct(news: seq<NewRow>, olds: seq<StoredRow>)
    requires DistinctNewMonths(news) && DistinctStoredMonths(olds)
    ensures DistinctStoredMonths(Upsert.Upsert(news, olds))
  {
    UpsertMonths(news, olds);
    var r := Upsert.Upsert(news, olds);
    forall i, j | 0 <= i < j < |r| ensures r[i].month != r[j].month {
      assert StoredMonths(r)[i] < StoredMonths(r)[j];
    }
  }

  /** Lines 48-149: the whole run; a stage that raises ends it with its error. */
  function Etl(sheet: seq<SheetRow>, fetch: IndexService, existing: Option<seq<StoredRow>>, etlDate: Day)
    : Result<RunOutput, EtlError>
    requires ServiceDistinct(fetch) && StoreDistinct(existing)
  {
    match Normalize.Normalize(sheet)
    case Err(e) => Err(e)
    case Ok(series) =>
      NormalizeShape(sheet, series);
      EtlFromSeries(series, fetch, existing, etlDate)
  }

  /** Lines 66-149: the index is asked for the window from the first to the last month of the series. */
  function EtlFromSeries(series: seq<PriceRow>, fetch: IndexService, existing: Option<seq<StoredRow>>, etlDate: Day)
    : Result<RunOutput, EtlError>
    requires Consecutive(series) && ServiceDistinct(fetch) && StoreDistinct(existing)
  {
    var response := fetch(series[0].month, series[|series| - 1].month);
    match ReadIndex(response)
    case Err(e) => Err(e)
    case Ok(index) =>
      IndexDatesDistinct(response, index);
      EtlFromIndex(series, index, existing, etlDate)
  }

  /** Lines 73-149: accumulation, correction, upsert and the refined view. */
  function EtlFromIndex(series: seq<PriceRow>, index: seq<IndexPoint>, existing: Option<seq<StoredRow>>, etlDate: Day)
    : Result<RunOutput, EtlError>
    requires Consecutive(series) && DistinctIndexDates(index) && StoreDistinct(existing)
  {
    match Adjust.Adjust(Accumulate.Accumulate(series, index))
    case Err(e) => Err(e)
    case Ok(adjusted) =>
      AdjustedMonths(series, index, adjusted);
      var store := Upsert.Upsert(NewRows(adjusted), Previous(existing));
      UpsertDistinct(NewRows(adjusted), Previous(existing));
      Ok(RunOutput(store, Refine.Refine(adjusted, store, etlDate)))
  }

  /** A series of consecutive months holds month m exactly when m lies between its ends. */
  lemma ConsecutiveHolds(series: seq<PriceRow>, m: Month)
    requires Consecutive(series)
    ensures (exists i :: 0 <= i < |series| && series[i].month == m)
        <==> series[0].month <= m <= series[|series| - 1].month
  {
    if series[0].month <= m <= series[|series| - 1].month {
      assert series[m - series[0].month].month == m;
    }
  }

  /** A sheet that cannot be normalised ends the run with the sheet's error. */
  lemma EtlSheetFailure(sheet: seq<SheetRow>, fetch: IndexService, existing: Option<seq<StoredRow>>, etlDate: Day)
    requires ServiceDistinct(fetch) && StoreDistinct(existing)
    ensures Normalize.Normalize(sheet).Err? ==>
              Etl(sheet, fetch, existing, etlDate) == Err(Normalize.Normalize(sheet).error)
  {
  }

  /** Past the sheet, the index is asked for the window from the first to the last month
      of the series, and an index that cannot be read ends the run with its error. */
  lemma EtlIndexFailure(sheet: seq<SheetRow>, fetch: IndexService, existing: Option<seq<StoredRow>>, etlDate: Day,
                        series: seq<PriceRow>)
    requires ServiceDistinct(fetch) && StoreDistinct(existing) && Normalize.Normalize(sheet) == Ok(series)
    ensures series != []
    ensures var response := fetch(series[0].month, series[|series| - 1].month);
            ReadIndex(response).Err? ==> Etl(sheet, fetch, existing, etlDate) == Err(ReadIndex(response).error)
  {
    NormalizeShape(sheet, series);
  }

  /** Once the sheet and the index are read, the run fails, with the missing-reference
      error, exactly when the series does not reach from before to after March 2025. */
  lemma EtlBaseMonthFailure(sheet: seq<SheetRow>, fetch: IndexService, existing: Option<seq<StoredRow>>, etlDate: Day,
                            series: seq<PriceRow>, index: seq<IndexPoint>)
    requires ServiceDistinct(fetch) && StoreDistinct(existing) && Normalize.Normalize(sheet) == Ok(series)
    requires series != [] && ReadIndex(fetch(series[0].month, series[|series| - 1].month)) == Ok(index)
    ensures var run := Etl(sheet, fetch, existing, etlDate);
            && (run.Err? ==> run == Err(BaseMonthMissing))
            && (run.Err? <==> BaseMonth < series[0].month || series[|series| - 1].month < BaseMonth)
  {
    NormalizeShape(sheet, series);
    var response := fetch(series[0].month, series[|series| - 1].month);
    IndexDatesDistinct(response, index);
    StageBaseMonth(series, index);
  }

  /** The correction of a consecutive series fails exactly when the series does not
      reach March 2025, and then with the missing-reference error. */
  lemma StageBaseMonth(series: seq<PriceRow>, index: seq<IndexPoint>)
    requires DistinctIndexDates(index)
    requires Consecutive(series)
    ensures var run := Adjust.Adjust(Accumulate.Accumulate(series, index));
            && (run.Err? ==> run == Err(BaseMonthMissing))
            && (run.Err? <==> BaseMonth < series[0].month || series[|series| - 1].month < BaseMonth)
  {
    var acc := Accumulate.Accumulate(series, index);
    AdjustFails(acc);
    ConsecutiveHolds(series, BaseMonth);
    assert forall i :: 0 <= i < |series| ==> acc[i].month == series[i].month;
  }

  /** Once the sheet is normalised, the run is the rest of the stages on its series. */
  lemma EtlOfSeries(sheet: seq<SheetRow>, fetch: IndexService, existing: Option<seq<StoredRow>>, etlDate: Day,
                    series: seq<PriceRow>)
    requires ServiceDistinct(fetch) && StoreDistinct(existing) && Normalize.Normalize(sheet) == Ok(series)
    ensures Consecutive(series)
    ensures Etl(sheet, fetch, existing, etlDate) == EtlFromSeries(series, fetch, existing, etlDate)
  {
    NormalizeShape(sheet, series);
  }

  /** Once the sheet and the index are read, the run is the rest of the stages on them. */
  lemma EtlThroughIndex(sheet: seq<SheetRow>, fetch: IndexService, existing: Option<seq<StoredRow>>, etlDate: Day,
                        series: seq<PriceRow>, index: seq<IndexPoint>)
    requires ServiceDistinct(fetch) && StoreDistinct(existing) && Normalize.Normalize(sheet) == Ok(series)
    requires series != [] && ReadIndex(fetch(series[0].month, series[|series| - 1].month)) == Ok(index)
    ensures Consecutive(series) && DistinctIndexDates(index)
    ensures Etl(sheet, fetch, existing, etlDate) == EtlFromIndex(series, index, existing, etlDate)
  {
    NormalizeShape(sheet, series);
    IndexDatesDistinct(fetch(series[0].month, series[|series| - 1].month), index);
  }

  /** The series and the index a successful run read. */
  lemma EtlUnfold(sheet: seq<SheetRow>, fetch: IndexService, existing: Option<seq<StoredRow>>, etlDate: Day)
    returns (series: seq<PriceRow>, index: seq<IndexPoint>)
    requires ServiceDistinct(fetch) && StoreDistinct(existing) && Etl(sheet, fetch, existing, etlDate).Ok?
    ensures Normalize.Normalize(sheet) == Ok(series) && Consecutive(series)
    ensures ReadIndex(fetch(series[0].month, series[|series| - 1].month)) == Ok(index)
    ensures DistinctIndexDates(index)
    ensures Etl(sheet, fetch, existing, etlDate) == EtlFromIndex(series, index, existing, etlDate)
  {
    series := Normalize.Normalize(sheet).value;
    NormalizeShape(sheet, series);
    index := ReadIndex(fetch(series[0].month, series[|series| - 1].month)).value;
    EtlThroughIndex(sheet, fetch, existing, etlDate, series, index);
  }

  /** Once the index is read, the run on a series is the rest of the stages on the two. */
  lemma FromSeriesIndexed(series: seq<PriceRow>, fetch: IndexService, existing: Option<seq<StoredRow>>, etlDate: Day,
                          index: seq<IndexPoint>)
    requires Consecutive(series) && ServiceDistinct(fetch) && StoreDistinct(existing)
    requires ReadIndex(fetch(series[0].month, series[|series| - 1].month)) == Ok(index)
    ensures DistinctIndexDates(index)
    ensures EtlFromSeries(series, fetch, existing, etlDate) == EtlFromIndex(series, index, existing, etlDate)
  {
    IndexDatesDistinct(fetch(series[0].month, series[|series| - 1].month), index);
  }

  /** The run past the index read: the correction's error, or the upsert and the refined view
      of the corrected series. */
  lemma FromIndexStages(series: seq<PriceRow>, index: seq<IndexPoint>, existing: Option<seq<StoredRow>>, etlDate: Day)
    requires Consecutive(series) && DistinctIndexDates(index) && StoreDistinct(existing)
    ensures var run := Adjust.Adjust(Accumulate.Accumulate(series, index));
            && (run.Err? ==> EtlFromIndex(series, index, existing, etlDate) == Err(run.error))
            && (run.Ok? ==>
                  && DistinctNewMonths(NewRows(run.value)) && DistinctStoredMonths(Previous(existing))
                  && var store := Upsert.Upsert(NewRows(run.value), Previous(existing));
                     EtlFromIndex(series, index, existing, etlDate) == Ok(RunOutput(store, Refine.Refine(run.value, store, etlDate))))
  {
    var run := Adjust.Adjust(Accumulate.Accumulate(series, index));
    if run.Ok? {
      AdjustedMonths(series, index, run.value);
    }
  }

  /** The corrected series of a successful run past the index stage, and what the run returns. */
  lemma FromIndexUnfold(series: seq<PriceRow>, index: seq<IndexPoint>, existing: Option<seq<StoredRow>>, etlDate: Day)
    returns (adjusted: seq<AdjustedRow>)
    requires Consecutive(series) && DistinctIndexDates(index) && StoreDistinct(existing)
    requires EtlFromIndex(series, index, existing, etlDate).Ok?
    ensures Adjust.Adjust(Accumulate.Accumulate(series, index)) == Ok(adjusted)
    ensures |adjusted| == |series| && forall i :: 0 <= i < |series| ==> adjusted[i].month == series[i].month
    ensures DistinctNewMonths(NewRows(adjusted))
    ensures var store := Upsert.Upsert(NewRows(adjusted), Previous(existing));
            && DistinctStoredMonths(store)
            && EtlFromIndex(series, index, existing, etlDate).value == RunOutput(store, Refine.Refine(adjusted, store, etlDate))
  {
    adjusted := Adjust.Adjust(Accumulate.Accumulate(series, index)).value;
    AdjustedMonths(series, index, adjusted);
    UpsertDistinct(NewRows(adjusted), Previous(existing));
  }

  /** In the refined output of a successful run the row of March 2025 carries the
      normalised price of that month unchanged. */
  lemma EtlBaseIdentity(sheet: seq<SheetRow>, fetch: IndexService, existing: Option<seq<StoredRow>>, etlDate: Day)
    requires ServiceDistinct(fetch) && StoreDistinct(existing) && Etl(sheet, fetch, existing, etlDate).Ok?
    ensures Normalize.Normalize(sheet).Ok?
    ensures var refined, series := Etl(sheet, fetch, existing, etlDate).value.refined, Normalize.Normalize(sheet).value;
            && |refined| == |series|
            && forall i :: 0 <= i < |series| ==>
                 refined[i].month == series[i].month
                 && (series[i].month == BaseMonth ==> refined[i].adjusted == series[i].price)
  {
    var series, index := EtlUnfold(sheet, fetch, existing, etlDate);
    var adjusted := FromIndexUnfold(series, index, existing, etlDate);
    var acc := Accumulate.Accumulate(series, index);
    var store := Upsert.Upsert(NewRows(adjusted), Previous(existing));
    var refined := Refine.Refine(adjusted, store, etlDate);
    assert DistinctAccMonths(acc) by {
      assert forall i :: 0 <= i < |series| ==> acc[i].month == series[i].month;
    }
    forall i | 0 <= i < |series|
      ensures refined[i].month == series[i].month
      ensures series[i].month == BaseMonth ==> refined[i].adjusted == series[i].price
    {
      RefineRow(adjusted, store, etlDate, i);
      AccumulateRows(series, index, i);
      if series[i].month == BaseMonth {
        BaseMonthIdentity(acc, i);
      }
    }
  }

  /** Every refined row carries the percentage of its month: its corrected price against
      the price the previous table held for that month. */
  lemma EtlPercent(sheet: seq<SheetRow>, fetch: IndexService, existing: Option<seq<StoredRow>>, etlDate: Day)
    requires ServiceDistinct(fetch) && StoreDistinct(existing) && Etl(sheet, fetch, existing, etlDate).Ok?
    ensures var refined := Etl(sheet, fetch, existing, etlDate).value.refined;
            forall i :: 0 <= i < |refined| ==>
              refined[i].percent
                == Some(Percent(Change(refined[i].adjusted, OldPriceAt(Previous(existing), refined[i].month))))
  {
    var series, index := EtlUnfold(sheet, fetch, existing, etlDate);
    var adjusted := FromIndexUnfold(series, index, existing, etlDate);
    var news, olds := NewRows(adjusted), Previous(existing);
    var store := Upsert.Upsert(news, olds);
    var refined := Refine.Refine(adjusted, store, etlDate);
    forall i | 0 <= i < |refined|
      ensures refined[i].percent
           == Some(Percent(Change(refined[i].adjusted, OldPriceAt(olds, refined[i].month))))
    {
      RefineRow(adjusted, store, etlDate, i);
      RowPercent(news, olds, i);
    }
  }

  /** The stored percentage of the month of new row k compares its price with the old one. */
  lemma RowPercent(news: seq<NewRow>, olds: seq<StoredRow>, k: nat)
    requires DistinctNewMonths(news) && DistinctStoredMonths(olds) && k < |news|
    ensures DistinctStoredMonths(Upsert.Upsert(news, olds))
    ensures PercentAt(Upsert.Upsert(news, olds), news[k].month)
         == Some(Percent(Change(news[k].price, OldPriceAt(olds, news[k].month))))
  {
    var store := Upsert.Upsert(news, olds);
    UpsertDistinct(news, olds);
    UpsertKeepsNewRow(news, olds, k);
    var j :| 0 <= j < |store| && store[j].month == news[k].month && store[j].price == news[k].price;
    PercentOfRow(store, j);
    UpsertRow(news, olds, j);
  }

  /** A second run on the same sheet and index, against the table the first run wrote,
      writes the same dates and prices, every percentage 0, and refines every month with 0. */
  lemma EtlRerun(sheet: seq<SheetRow>, fetch: IndexService, existing: Option<seq<StoredRow>>, etlDate: Day, etlDate': Day)
    requires ServiceDistinct(fetch) && StoreDistinct(existing) && Etl(sheet, fetch, existing, etlDate).Ok?
    ensures var first := Etl(sheet, fetch, existing, etlDate).value.store;
            && StoreDistinct(Some(first))
            && var second := Etl(sheet, fetch, Some(first), etlDate');
            && second.Ok?
            && |second.value.store| == |first|
            && (forall i :: 0 <= i < |first| ==>
                  second.value.store[i].month == first[i].month && second.value.store[i].price == first[i].price
                  && second.value.store[i].percent == Finite(0.0))
            && forall i :: 0 <= i < |second.value.refined| ==> second.value.refined[i].percent == Some(Finite(0.0))
  {
    var series, index := EtlUnfold(sheet, fetch, existing, etlDate);
    RerunFromIndex(series, index, existing, etlDate, etlDate');
    var first := EtlFromIndex(series, index, existing, etlDate).value.store;
    EtlThroughIndex(sheet, fetch, Some(first), etlDate', series, index);
  }

  lemma RerunFromIndex(series: seq<PriceRow>, index: seq<IndexPoint>, existing: Option<seq<StoredRow>>,
                       etlDate: Day, etlDate': Day)
    requires Consecutive(series) && DistinctIndexDates(index) && StoreDistinct(existing)
    requires EtlFromIndex(series, index, existing, etlDate).Ok?
    ensures var first := EtlFromIndex(series, index, existing, etlDate).value.store;
            && StoreDistinct(Some(first))
            && var second := EtlFromIndex(series, index, Some(first), etlDate');
            && second.Ok?
            && |second.value.store| == |first|
            && (forall i :: 0 <= i < |first| ==>
                  second.value.store[i].month == first[i].month && second.value.store[i].price == first[i].price
                  && second.value.store[i].percent == Finite(0.0))
            && forall i :: 0 <= i < |second.value.refined| ==> second.value.refined[i].percent == Some(Finite(0.0))
  {
    var adjusted := FromIndexUnfold(series, index, existing, etlDate);
    var news := NewRows(adjusted);
    var first := Upsert.Upsert(news, Previous(existing));
    RerunGivesZero(news, Previous(existing));
    assert EtlFromIndex(series, index, Some(first), etlDate').Ok?;
    var adjusted' := FromIndexUnfold(series, index, Some(first), etlDate');
    assert adjusted' == adjusted;
    var store := Upsert.Upsert(news, first);
    forall i | 0 <= i < |adjusted|
      ensures exists j :: 0 <= j < |store| && store[j].month == adjusted[i].month
    {
      UpsertKeepsNewRow(news, first, i);
    }
    RefinedOfZeroStore(adjusted, store, etlDate');
  }

  /** A table whose percentages are all 0 gives every refined row whose month it holds the percentage 0. */
  lemma RefinedOfZeroStore(series: seq<AdjustedRow>, store: seq<StoredRow>, etlDate: Day)
    requires DistinctStoredMonths(store)
    requires forall i :: 0 <= i < |series| ==> exists j :: 0 <= j < |store| && store[j].month == series[i].month
    requires forall j :: 0 <= j < |store| ==> store[j].percent == Finite(0.0)
    ensures forall i :: 0 <= i < |series| ==> Refine.Refine(series, store, etlDate)[i].percent == Some(Finite(0.0))
  {
    forall i | 0 <= i < |series| ensures Refine.Refine(series, store, etlDate)[i].percent == Some(Finite(0.0)) {
      RefineRow(series, store, etlDate, i);
      var j :| 0 <= j < |store| && store[j].month == series[i].month;
      PercentOfRow(store, j);
    }
  }

  /** When the index is 0 in every month of the series (or has no point for it), the
      correction keeps every price as it is. */
  lemma ZeroIndexKeepsPrices(series: seq<PriceRow>, index: seq<IndexPoint>)
    requires DistinctIndexDates(index)
    requires forall i :: 0 <= i < |series| ==> IndexValueAt(index, series[i].month) == 0.0
    requires exists b :: 0 <= b < |series| && series[b].month == BaseMonth
    ensures Adjust.Adjust(Accumulate.Accumulate(series, index)).Ok?
    ensures var adjusted := Adjust.Adjust(Accumulate.Accumulate(series, index)).value;
            |adjusted| == |series| && forall i :: 0 <= i < |series| ==> adjusted[i].adjusted == series[i].price
  {
    var acc := Accumulate.Accumulate(series, index);
    AccumulatedZero(series, index);
    var b :| 0 <= b < |series| && series[b].month == BaseMonth;
    assert acc[b].month == BaseMonth;
    FlatIndexKeepsPrices(acc);
  }
}
