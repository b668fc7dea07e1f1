/** The spreadsheet stage: drop undated rows, read the price and date text,
    keep the first row of each month, lay the rows on the full monthly
    calendar from the earliest to the latest month, and forward-fill prices. */
module Normalize {
  import opened Wrappers
  import opened Domain
  import Text
  import Columns

  /** A spreadsheet row after the header rows: its first two cells as text
      (None is an empty cell). Numeric cells reach the reading as their text. */
  datatype SheetRow = SheetRow(date: Option<string>, price: Option<string>)

  /** A row of the monthly price series; a None price is NaN. */
  datatype PriceRow = PriceRow(month: Month, price: Option<real>)

  /** dropna(how='all') then dropna(subset=["Data"]): every row without a date goes,
      and the first drop removes nothing the second would keep. */
  function DropUndated(rows: seq<SheetRow>): (r: seq<SheetRow>)
    ensures forall x :: x in r <==> x in rows && x.date.Some?
  {
    if rows == [] then []
    else (if rows[0].date.Some? then [rows[0]] else []) + DropUndated(rows[1..])
  }

  /** A single row survives exactly when it is dated. */
  lemma DropUndatedSingle(x: SheetRow)
    ensures DropUndated([x]) == if x.date.Some? then [x] else []
  {
    assert [x][1..] == [];
  }

  /** Dropping distributes over concatenation, so the dated rows keep their order. */
  lemma {:induction false} DropUndatedAppend(a: seq<SheetRow>, b: seq<SheetRow>)
    ensures DropUndated(a + b) == DropUndated(a) + DropUndated(b)
    decreases |a|
  {
    if a != [] {
      assert (a + b)[0] == a[0];
      assert (a + b)[1..] == a[1..] + b;
      DropUndatedAppend(a[1..], b);
    } else {
      assert a + b == b;
    }
  }

  /** Every row of an all-dated sheet is kept, in place. */
  lemma {:induction false} DropUndatedAllDated(rows: seq<SheetRow>)
    requires forall k :: 0 <= k < |rows| ==> rows[k].date.Some?
    ensures DropUndated(rows) == rows
    decreases |rows|
  {
    if rows != [] {
      DropUndatedAllDated(rows[1..]);
      assert [rows[0]] + rows[1..] == rows;
    }
  }

  /** The price cell can be read: it is empty (astype(str) gives "nan", read back
      as NaN) or its text, commas made points, is a numeral. */
  predicate PriceReadable(cell: Option<string>) {
    cell.None? || Text.ReadDecimalComma(cell.value).Some?
  }

  function PriceOf(cell: Option<string>): Option<real>
    requires PriceReadable(cell)
  {
    if cell.None? then None else Text.ReadDecimalComma(cell.value)
  }

  /** Both cells of a dated row can be read: the price as above, the date by "%m/%Y". */
  predicate RowReadable(x: SheetRow) {
    x.date.Some? && Text.ReadMonthYear(x.date.value).Some? && PriceReadable(x.price)
  }

  function ReadRow(x: SheetRow): PriceRow
    requires RowReadable(x)
  {
    PriceRow(Text.ReadMonthYear(x.date.value).value, PriceOf(x.price))
  }

  /** Reads every row, or fails (None) when any cell cannot be read. */
  function ReadRows(rows: seq<SheetRow>): (r: Option<seq<PriceRow>>)
    ensures r.Some? <==> forall i :: 0 <= i < |rows| ==> RowReadable(rows[i])
    ensures r.Some? ==> |r.value| == |rows| && forall i :: 0 <= i < |rows| ==> r.value[i] == ReadRow(rows[i])
  {
    if rows == [] then Some([])
    else if !RowReadable(rows[0]) then None
    else
      match ReadRows(rows[1..])
      case None => None
      case Some(rest) => Some([ReadRow(rows[0])] + rest)
  }

  /** A dated row whose date text pandas reads as NaT. */
  predicate NotATime(x: SheetRow) {
    x.date.Some? && Text.IsNaTText(x.date.value)
  }

  /** Both cells of a dated row convert without raising: the price as above, the date
      by "%m/%Y" or as NaT. */
  predicate CellsConvert(x: SheetRow) {
    x.date.Some? && PriceReadable(x.price) && (Text.IsNaTText(x.date.value) || Text.ReadMonthYear(x.date.value).Some?)
  }

  /** The NaT rows take no part in lines 54-59: drop_duplicates never equates NaT with a
      month, min() and max() skip it and no calendar month matches it in the merge. */
  function DropNaT(rows: seq<SheetRow>): (r: seq<SheetRow>)
    ensures forall x :: x in r <==> x in rows && !NotATime(x)
  {
    if rows == [] then [] else KeepRow(rows[0]) + DropNaT(rows[1..])
  }

  /** The row itself, or nothing for a NaT row. */
  function KeepRow(x: SheetRow): (r: seq<SheetRow>)
    ensures r == [] <==> NotATime(x)
    ensures r != [] ==> r == [x]
  {
    if NotATime(x) then [] else [x]
  }

  /** Dropping NaT rows distributes over concatenation, so the other rows keep their order. */
  lemma {:induction false} DropNaTAppend(a: seq<SheetRow>, b: seq<SheetRow>)
    ensures DropNaT(a + b) == DropNaT(a) + DropNaT(b)
    decreases |a|
  {
    if a != [] {
      var c := a + b;
      assert c[0] == a[0] && c[1..] == a[1..] + b;
      assert DropNaT(c) == KeepRow(a[0]) + DropNaT(a[1..] + b);
      DropNaTAppend(a[1..], b);
    } else {
      assert a + b == b;
    }
  }

  /** A sheet without NaT dates is kept whole, in order. */
  lemma {:induction false} DropNaTNoneNaT(rows: seq<SheetRow>)
    requires forall k :: 0 <= k < |rows| ==> !NotATime(rows[k])
    ensures DropNaT(rows) == rows
    decreases |rows|
  {
    if rows != [] {
      DropNaTNoneNaT(rows[1..]);
      assert [rows[0]] + rows[1..] == rows;
    }
  }

  /** A row whose date reads as a month is no NaT row, and its cells convert. */
  lemma ReadableIsNotNaT(x: SheetRow)
    requires RowReadable(x)
    ensures CellsConvert(x) && !NotATime(x)
  {
    if NotATime(x) {
      Text.NaTIsNoMonth(x.date.value);
    }
  }

  /** Every cell converts exactly when the rows left after the NaT drop all read. */
  lemma ConvertThenRead(dated: seq<SheetRow>)
    requires forall k :: 0 <= k < |dated| ==> CellsConvert(dated[k])
    ensures ReadRows(DropNaT(dated)).Some?
  {
    var kept := DropNaT(dated);
    forall i | 0 <= i < |kept| ensures RowReadable(kept[i]) {
      assert kept[i] in dated;
      var k :| 0 <= k < |dated| && dated[k] == kept[i];
      assert CellsConvert(dated[k]) && !NotATime(dated[k]);
    }
  }

  /** Only NaT rows are left out by the drop: none remain exactly when every row is NaT. */
  lemma DropNaTEmpty(rows: seq<SheetRow>)
    ensures DropNaT(rows) == [] <==> forall k :: 0 <= k < |rows| ==> NotATime(rows[k])
  {
    if DropNaT(rows) == [] {
      forall k | 0 <= k < |rows| ensures NotATime(rows[k]) {
        assert rows[k] in rows;
      }
    } else {
      var x := DropNaT(rows)[0];
      assert x in DropNaT(rows);
      var k :| 0 <= k < |rows| && rows[k] == x;
      assert !NotATime(rows[k]);
    }
  }

  predicate DistinctMonths(rows: seq<PriceRow>) {
    forall i, j :: 0 <= i < j < |rows| ==> rows[i].month != rows[j].month
  }

  /** The position of the first row of month m, or |rows| when there is none. */
  function FirstIndex(rows: seq<PriceRow>, m: Month): (k: nat)
    ensures k <= |rows|
    ensures k < |rows| ==> rows[k].month == m
    ensures forall j :: 0 <= j < k ==> rows[j].month != m
  {
    if rows == [] then 0 else if rows[0].month == m then 0 else 1 + FirstIndex(rows[1..], m)
  }

  /** The first row of month m. */
  function FirstRow(rows: seq<PriceRow>, m: Month): Option<PriceRow> {
    var k := FirstIndex(rows, m);
    if k < |rows| then Some(rows[k]) else None
  }

  /** The price the left merge finds for month m: that of the first row of m;
      NaN when m has no row. */
  function PriceAt(rows: seq<PriceRow>, m: Month): Option<real> {
    match FirstRow(rows, m)
    case None => None
    case Some(x) => x.price
  }

  lemma FirstIndexIs(rows: seq<PriceRow>, m: Month, k: nat)
    requires k <= |rows| && (k < |rows| ==> rows[k].month == m)
    requires forall j :: 0 <= j < k ==> rows[j].month != m
    ensures FirstIndex(rows, m) == k
  {
  }

  /** Appending a row changes the first row of a month only when the month had none. */
  lemma FirstRowSnoc(p: seq<PriceRow>, x: PriceRow, m: Month)
    ensures FirstRow(p + [x], m)
         == if FirstRow(p, m).Some? then FirstRow(p, m) else if x.month == m then Some(x) else None
  {
    var k := FirstIndex(p, m);
    if k < |p| {
      FirstIndexIs(p + [x], m, k);
    } else if x.month == m {
      FirstIndexIs(p + [x], m, |p|);
    } else {
      FirstIndexIs(p + [x], m, |p| + 1);
    }
  }

  /** drop_duplicates(subset=["Data"]): of the rows of one month only the first stays. */
  function DedupFirst(rows: seq<PriceRow>): (r: seq<PriceRow>)
    ensures DistinctMonths(r)
  {
    if rows == [] then []
    else
      var d := DedupFirst(rows[..|rows| - 1]);
      var x := rows[|rows| - 1];
      if FirstIndex(d, x.month) < |d| then d else d + [x]
  }

  /** The row that survives for a month is the first row of that month in input order,
      and a month has a row after the drop exactly when it had one before. */
  lemma {:induction false} DedupKeepsFirst(rows: seq<PriceRow>, m: Month)
    ensures FirstRow(DedupFirst(rows), m) == FirstRow(rows, m)
  {
    if rows != [] {
      var init, x := rows[..|rows| - 1], rows[|rows| - 1];
      var d := DedupFirst(init);
      assert rows == init + [x];
      DedupKeepsFirst(init, m);
      FirstRowSnoc(init, x, m);
      if FirstIndex(d, x.month) < |d| {
        DedupKeepsFirst(init, x.month);
      } else {
        FirstRowSnoc(d, x, m);
      }
    }
  }

  /** Series.min() of the month column. */
  function MinMonth(rows: seq<PriceRow>): (m: Month)
    requires rows != []
    ensures exists i :: 0 <= i < |rows| && rows[i].month == m
    ensures forall i :: 0 <= i < |rows| ==> m <= rows[i].month
  {
    if |rows| == 1 then rows[0].month
    else
      var rest := MinMonth(rows[1..]);
      if rows[0].month <= rest then rows[0].month else rest
  }

  /** Series.max() of the month column. */
  function MaxMonth(rows: seq<PriceRow>): (m: Month)
    requires rows != []
    ensures exists i :: 0 <= i < |rows| && rows[i].month == m
    ensures forall i :: 0 <= i < |rows| ==> rows[i].month <= m
  {
    if |rows| == 1 then rows[0].month
    else
      var rest := MaxMonth(rows[1..]);
      if rows[0].month >= rest then rows[0].month else rest
  }

  /** date_range(start=lo, end=hi, freq="MS"): every first-of-month from lo to hi, ascending. */
  function Calendar(lo: Month, hi: Month): (r: seq<Month>)
    requires lo <= hi
    ensures |r| == hi - lo + 1
    ensures forall i :: 0 <= i < |r| ==> r[i] == lo + i
    decreases hi - lo
  {
    if lo == hi then [lo] else [lo] + Calendar(lo + 1, hi)
  }

  /** merge(how="left") of the calendar with rows of distinct months: one row per
      calendar month, in calendar order, with the price of that month's row. */
  function JoinCalendar(calendar: seq<Month>, rows: seq<PriceRow>): (r: seq<PriceRow>)
    requires DistinctMonths(rows)
    ensures |r| == |calendar|
    ensures forall i :: 0 <= i < |r| ==> r[i] == PriceRow(calendar[i], PriceAt(rows, calendar[i]))
  {
    if calendar == [] then []
    else [PriceRow(calendar[0], PriceAt(rows, calendar[0]))] + JoinCalendar(calendar[1..], rows)
  }

  function Prices(rows: seq<PriceRow>): (r: seq<Option<real>>)
    ensures |r| == |rows| && forall i :: 0 <= i < |rows| ==> r[i] == rows[i].price
  {
    if rows == [] then [] else [rows[0].price] + Prices(rows[1..])
  }

  /** The rows with their price column replaced. */
  function WithPrices(rows: seq<PriceRow>, prices: seq<Option<real>>): (r: seq<PriceRow>)
    requires |prices| == |rows|
    ensures |r| == |rows| && forall i :: 0 <= i < |rows| ==> r[i] == PriceRow(rows[i].month, prices[i])
  {
    if rows == [] then [] else [PriceRow(rows[0].month, prices[0])] + WithPrices(rows[1..], prices[1..])
  }

  /** The sheet up to the left merge onto the calendar; the stage fails when a cell
      cannot be read or no dated row is left (min() is then NaT and date_range raises). */
  function Prepare(sheet: seq<SheetRow>): Result<seq<PriceRow>, EtlError> {
    match Parsed(sheet)
    case None => Err(SheetUnreadable)
    case Some(parsed) =>
      if parsed == [] then Err(SheetUnreadable)
      else
        var rows := DedupFirst(parsed);
        Ok(JoinCalendar(Calendar(MinMonth(rows), MaxMonth(rows)), rows))
  }

  /** The whole spreadsheet stage: the prepared calendar with its prices forward-filled. */
  function Normalize(sheet: seq<SheetRow>): Result<seq<PriceRow>, EtlError> {
    match Prepare(sheet)
    case Err(e) => Err(e)
    case Ok(t) => Ok(WithPrices(t, Columns.FillForward(Prices(t))))
  }

  /** Lines 52-53 on the dated rows: every cell must convert, and the NaT rows are then
      set aside; None where a conversion raises. */
  function ReadDated(dated: seq<SheetRow>): Option<seq<PriceRow>> {
    if forall k :: 0 <= k < |dated| ==> CellsConvert(dated[k]) then ReadRows(DropNaT(dated)) else None
  }

  /** The rows the sheet yields once read. */
  function Parsed(sheet: seq<SheetRow>): Option<seq<PriceRow>> {
    ReadDated(DropUndated(sheet))
  }

  /** The reading leaves no row to build a calendar on exactly when a cell does not convert
      or every dated row is NaT. */
  lemma ReadDatedFails(dated: seq<SheetRow>)
    ensures ReadDated(dated).None? || ReadDated(dated).value == [] <==>
              (exists i :: 0 <= i < |dated| && !CellsConvert(dated[i]))
              || forall i :: 0 <= i < |dated| ==> NotATime(dated[i])
  {
    DropNaTEmpty(dated);
    if forall k :: 0 <= k < |dated| ==> CellsConvert(dated[k]) {
      ConvertThenRead(dated);
    }
  }

  /** The stage fails exactly when a cell of some dated row does not convert, or when no
      dated row has a month (none is dated, or every date is NaT, so that date_range is
      given NaT ends). */
  lemma NormalizeFails(sheet: seq<SheetRow>)
    ensures var dated := DropUndated(sheet);
            Normalize(sheet).Err? <==>
              (exists i :: 0 <= i < |dated| && !CellsConvert(dated[i]))
              || forall i :: 0 <= i < |dated| ==> NotATime(dated[i])
  {
    NormalizeOfPrepared(sheet);
    PrepareFails(sheet);
    ReadDatedFails(DropUndated(sheet));
  }

  /** The preparation fails exactly when reading fails or leaves no row. */
  lemma PrepareFails(sheet: seq<SheetRow>)
    ensures Prepare(sheet).Err? <==> Parsed(sheet).None? || Parsed(sheet).value == []
    ensures Prepare(sheet).Err? ==> Prepare(sheet).error == SheetUnreadable
  {
  }

  /** A sheet whose every row is dated by a month reads row by row. */
  lemma {:induction false} ParsedOfReadable(sheet: seq<SheetRow>)
    requires forall k :: 0 <= k < |sheet| ==> RowReadable(sheet[k])
    ensures Parsed(sheet) == ReadRows(sheet)
  {
    forall k | 0 <= k < |sheet| ensures CellsConvert(sheet[k]) && !NotATime(sheet[k]) {
      ReadableIsNotNaT(sheet[k]);
    }
    DropUndatedAllDated(sheet);
    DropNaTNoneNaT(sheet);
  }

  /** A trailing NaT row whose price converts does not change what the dated rows read as. */
  lemma ReadDatedIgnoresNaT(dated: seq<SheetRow>, x: SheetRow)
    requires NotATime(x) && PriceReadable(x.price)
    ensures ReadDated(dated + [x]) == ReadDated(dated)
  {
    DropNaTAppend(dated, [x]);
    assert DropNaT([x]) == [] by { assert [x][1..] == []; }
    assert DropNaT(dated + [x]) == DropNaT(dated);
    assert CellsConvert(x);
    assert (forall k :: 0 <= k < |dated + [x]| ==> CellsConvert((dated + [x])[k]))
       <==> (forall k :: 0 <= k < |dated| ==> CellsConvert(dated[k])) by {
      assert forall k :: 0 <= k < |dated| ==> (dated + [x])[k] == dated[k];
      assert (dated + [x])[|dated|] == x;
    }
  }

  /** A NaT row whose price converts changes nothing: the stage gives the same result
      with or without it. */
  lemma NaTRowIgnored(sheet: seq<SheetRow>, x: SheetRow)
    requires NotATime(x) && PriceReadable(x.price)
    ensures Normalize(sheet + [x]) == Normalize(sheet)
  {
    DropUndatedAppend(sheet, [x]);
    DropUndatedSingle(x);
    ReadDatedIgnoresNaT(DropUndated(sheet), x);
    assert Parsed(sheet + [x]) == Parsed(sheet);
  }

  /** A month has a row after the duplicate drop exactly when it has one in the input. */
  lemma DedupMonths(rows: seq<PriceRow>, m: Month)
    ensures (exists i :: 0 <= i < |DedupFirst(rows)| && DedupFirst(rows)[i].month == m)
        <==> (exists i :: 0 <= i < |rows| && rows[i].month == m)
  {
    DedupKeepsFirst(rows, m);
    var d := DedupFirst(rows);
    if exists i :: 0 <= i < |d| && d[i].month == m {
      var i :| 0 <= i < |d| && d[i].month == m;
      assert FirstIndex(d, m) <= i;
    }
    if exists i :: 0 <= i < |rows| && rows[i].month == m {
      var i :| 0 <= i < |rows| && rows[i].month == m;
      assert FirstIndex(rows, m) <= i;
    }
  }

  lemma PrepareUnfold(sheet: seq<SheetRow>)
    requires Prepare(sheet).Ok?
    ensures Parsed(sheet).Some? && Parsed(sheet).value != []
    ensures var d := DedupFirst(Parsed(sheet).value);
            Prepare(sheet).value == JoinCalendar(Calendar(MinMonth(d), MaxMonth(d)), d)
  {
  }

  /** The stage fails with the error of the preparation, or forward-fills the prepared table. */
  lemma NormalizeOfPrepared(sheet: seq<SheetRow>)
    ensures Prepare(sheet).Err? ==> Normalize(sheet) == Err(Prepare(sheet).error)
    ensures Prepare(sheet).Ok? ==>
              Normalize(sheet) == Ok(WithPrices(Prepare(sheet).value, Columns.FillForward(Prices(Prepare(sheet).value))))
  {
  }

  lemma NormalizeUnfold(sheet: seq<SheetRow>)
    requires Normalize(sheet).Ok?
    ensures Prepare(sheet).Ok?
    ensures var t := Prepare(sheet).value;
            Normalize(sheet).value == WithPrices(t, Columns.FillForward(Prices(t)))
  {
  }

  /** The earliest and latest months after the duplicate drop are those of the input. */
  lemma DedupBounds(parsed: seq<PriceRow>)
    requires parsed != []
    ensures DedupFirst(parsed) != []
    ensures var d := DedupFirst(parsed);
            && (exists j :: 0 <= j < |parsed| && parsed[j].month == MinMonth(d))
            && (exists j :: 0 <= j < |parsed| && parsed[j].month == MaxMonth(d))
            && (forall j :: 0 <= j < |parsed| ==> MinMonth(d) <= parsed[j].month <= MaxMonth(d))
  {
    DedupMonths(parsed, parsed[0].month);
    var d := DedupFirst(parsed);
    DedupMonths(parsed, MinMonth(d));
    DedupMonths(parsed, MaxMonth(d));
    forall j | 0 <= j < |parsed| ensures MinMonth(d) <= parsed[j].month <= MaxMonth(d) {
      DedupMonths(parsed, parsed[j].month);
    }
  }

  /** After the stage the series runs over consecutive months, one row each, ascending,
      from the earliest to the latest month of the input rows, which it covers. */
  lemma {:induction false} NormalizeCalendar(sheet: seq<SheetRow>, r: seq<PriceRow>, parsed: seq<PriceRow>)
    requires Normalize(sheet) == Ok(r) && Parsed(sheet) == Some(parsed)
    ensures r != []
    ensures forall i :: 0 <= i < |r| ==> r[i].month == r[0].month + i
    ensures exists j :: 0 <= j < |parsed| && parsed[j].month == r[0].month
    ensures exists j :: 0 <= j < |parsed| && parsed[j].month == r[|r| - 1].month
    ensures forall j :: 0 <= j < |parsed| ==> r[0].month <= parsed[j].month <= r[|r| - 1].month
  {
    NormalizeUnfold(sheet);
    PrepareUnfold(sheet);
    DedupBounds(parsed);
    var d := DedupFirst(parsed);
    CalendarRows(Prepare(sheet).value, r, d);
    SpanCovers(parsed, r, MinMonth(d), MaxMonth(d));
  }

  /** A series of one row per month, without a gap: what the spreadsheet stage yields. */
  predicate Consecutive(series: seq<PriceRow>) {
    series != [] && forall i :: 0 <= i < |series| ==> series[i].month == series[0].month + i
  }

  /** A successful stage yields a non-empty series of consecutive months. */
  lemma NormalizeShape(sheet: seq<SheetRow>, r: seq<PriceRow>)
    requires Normalize(sheet) == Ok(r)
    ensures Consecutive(r)
  {
    NormalizeUnfold(sheet);
    PrepareUnfold(sheet);
    var parsed := Parsed(sheet).value;
    NormalizeCalendar(sheet, r, parsed);
  }

  /** Rows numbered from lo to hi cover every input month when lo and hi are the
      earliest and latest input months. */
  lemma SpanCovers(parsed: seq<PriceRow>, r: seq<PriceRow>, lo: Month, hi: Month)
    requires |r| == hi - lo + 1 && forall i :: 0 <= i < |r| ==> r[i].month == lo + i
    requires exists j :: 0 <= j < |parsed| && parsed[j].month == lo
    requires exists j :: 0 <= j < |parsed| && parsed[j].month == hi
    requires forall j :: 0 <= j < |parsed| ==> lo <= parsed[j].month <= hi
    ensures r != []
    ensures forall i :: 0 <= i < |r| ==> r[i].month == r[0].month + i
    ensures exists j :: 0 <= j < |parsed| && parsed[j].month == r[0].month
    ensures exists j :: 0 <= j < |parsed| && parsed[j].month == r[|r| - 1].month
    ensures forall j :: 0 <= j < |parsed| ==> r[0].month <= parsed[j].month <= r[|r| - 1].month
  {
    assert r[0].month == lo && r[|r| - 1].month == hi;
  }

  lemma CalendarRows(t: seq<PriceRow>, r: seq<PriceRow>, d: seq<PriceRow>)
    requires d != [] && DistinctMonths(d)
    requires t == JoinCalendar(Calendar(MinMonth(d), MaxMonth(d)), d)
    requires r == WithPrices(t, Columns.FillForward(Prices(t)))
    ensures |r| == MaxMonth(d) - MinMonth(d) + 1
    ensures forall i :: 0 <= i < |r| ==> r[i].month == MinMonth(d) + i
  {
    var calendar := Calendar(MinMonth(d), MaxMonth(d));
    forall i | 0 <= i < |r| ensures r[i].month == MinMonth(d) + i {
      assert r[i].month == t[i].month == calendar[i];
    }
  }

  /** The prepared calendar row of each month carries the price of the first input row
      of that month, or NaN when the month had no row. */
  lemma PrepareTakesFirstPrice(sheet: seq<SheetRow>, i: nat)
    requires Prepare(sheet).Ok? && i < |Prepare(sheet).value|
    ensures Parsed(sheet).Some?
    ensures Prepare(sheet).value[i].price == PriceAt(Parsed(sheet).value, Prepare(sheet).value[i].month)
  {
    PrepareUnfold(sheet);
    DedupKeepsFirst(Parsed(sheet).value, Prepare(sheet).value[i].month);
  }

  /** A month whose first input row has a price keeps that price. */
  lemma NormalizeKeepsKnownPrice(sheet: seq<SheetRow>, i: nat)
    requires Normalize(sheet).Ok? && i < |Normalize(sheet).value|
    ensures Parsed(sheet).Some?
    ensures var r := Normalize(sheet).value;
            PriceAt(Parsed(sheet).value, r[i].month).Some? ==>
              r[i].price == PriceAt(Parsed(sheet).value, r[i].month)
  {
    NormalizeUnfold(sheet);
    var t := Prepare(sheet).value;
    var s := Prices(t);
    var r := Normalize(sheet).value;
    assert r[i] == PriceRow(t[i].month, Columns.FillForward(s)[i]);
    PrepareTakesFirstPrice(sheet, i);
    if s[i].Some? {
      Columns.FillForwardKeepsKnown(s, i);
    }
  }

  /** A month with no priced input row takes the price of the month before it. */
  lemma NormalizeFillsGap(sheet: seq<SheetRow>, i: nat)
    requires Normalize(sheet).Ok? && 0 < i < |Normalize(sheet).value|
    ensures Parsed(sheet).Some?
    ensures var r := Normalize(sheet).value;
            PriceAt(Parsed(sheet).value, r[i].month).None? ==> r[i].price == r[i - 1].price
  {
    NormalizeUnfold(sheet);
    PrepareTakesFirstPrice(sheet, i);
    FilledGap(Prepare(sheet).value, Parsed(sheet).value, i);
  }

  /** In the filled calendar, a month whose price the merge left NaN has the price of the month before. */
  lemma {:induction false} FilledGap(t: seq<PriceRow>, known: seq<PriceRow>, i: nat)
    requires 0 < i < |t| && t[i].price == PriceAt(known, t[i].month)
    ensures var r := WithPrices(t, Columns.FillForward(Prices(t)));
            r[i].month == t[i].month
            && (PriceAt(known, t[i].month).None? ==> r[i].price == r[i - 1].price)
  {
    var s := Prices(t);
    if s[i].None? {
      Columns.FillForwardCarries(s, i);
    }
  }

  /** A price stays NaN exactly when no month up to it has a priced input row. */
  lemma NormalizeLeadingGap(sheet: seq<SheetRow>, i: nat)
    requires Normalize(sheet).Ok? && i < |Normalize(sheet).value|
    ensures Parsed(sheet).Some?
    ensures var r := Normalize(sheet).value;
            r[i].price.None? <==> forall k :: 0 <= k <= i ==> PriceAt(Parsed(sheet).value, r[k].month).None?
  {
    NormalizeUnfold(sheet);
    var t := Prepare(sheet).value;
    var s := Prices(t);
    var r := Normalize(sheet).value;
    var known := Parsed(sheet).value;
    forall k | 0 <= k <= i ensures s[k] == PriceAt(known, r[k].month) {
      PrepareTakesFirstPrice(sheet, k);
    }
    Columns.FillForwardLeavesLeadingGap(s, i);
  }
}
