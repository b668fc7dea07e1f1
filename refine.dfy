/** The refined view: the corrected series with its percentage looked up in the
    upserted table, and the constant columns that describe the commodity. */
module Refine {
  import opened Wrappers
  import opened Domain
  import opened Adjust
  import opened Upsert

  const CommodityName: string := "Boi_Gordo"
  const CommodityKind: string := "Indicador do Boi Gordo CEPEA/B3"
  const CommodityUnit: string := "15 Kg/carcaça"

  /** A row of the refined output: dt_cmdty, nome_cmdty, tipo_cmdty, cmdty_um,
      cmdty_vl_rs_um, cmdty_var_mes_perc and dt_etl. */
  datatype RefinedRow = RefinedRow(month: Month, name: string, kind: string, unit: string,
                                   adjusted: Option<real>, percent: Option<Extended>, etlDate: Day)

  /** The percentage the table holds for month m, NaN where it has no row for m. */
  function PercentAt(store: seq<StoredRow>, m: Month): Option<Extended> {
    if store == [] then None
    else if store[0].month == m then Some(store[0].percent)
    else PercentAt(store[1..], m)
  }

  /** Lines 135-149: the left merge of the percentage column onto the series, the
      constant columns and the run date, projected on the output columns. With one
      table row per date, the merge neither drops nor repeats a series row. */
  function Refine(series: seq<AdjustedRow>, store: seq<StoredRow>, etlDate: Day): (r: seq<RefinedRow>)
    requires DistinctStoredMonths(store)
    ensures |r| == |series|
  {
    if series == [] then []
    else
      [RefinedRow(series[0].month, CommodityName, CommodityKind, CommodityUnit,
                  series[0].adjusted, PercentAt(store, series[0].month), etlDate)]
      + Refine(series[1..], store, etlDate)
  }

  /** The output keeps the series' rows in order: each keeps its date and corrected
      price, takes its month's percentage from the table, the three constants and the run date. */
  lemma {:induction false} RefineRow(series: seq<AdjustedRow>, store: seq<StoredRow>, etlDate: Day, i: nat)
    requires DistinctStoredMonths(store) && i < |series|
    ensures var row := Refine(series, store, etlDate)[i];
            && row.month == series[i].month && row.adjusted == series[i].adjusted
            && row.percent == PercentAt(store, series[i].month)
            && row.name == "Boi_Gordo" && row.kind == "Indicador do Boi Gordo CEPEA/B3"
            && row.unit == "15 Kg/carcaça" && row.etlDate == etlDate
  {
    if i > 0 {
      RefineRow(series[1..], store, etlDate, i - 1);
    }
  }

  /** A month with a table row gets that row's percentage. */
  lemma {:induction false} PercentOfRow(store: seq<StoredRow>, k: nat)
    requires DistinctStoredMonths(store) && k < |store|
    ensures PercentAt(store, store[k].month) == Some(store[k].percent)
  {
    if k > 0 {
      assert store[0].month != store[k].month;
      PercentOfRow(store[1..], k - 1);
    }
  }
}
