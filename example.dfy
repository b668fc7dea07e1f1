/** The worked example of the run: two priced months around a gap, corrected to March 2025. */
module Example {
  import opened Wrappers
  import opened Domain
  import Text
  import Columns
  import opened Normalize
  import opened Accumulate
  import Adjust
  import opened Upsert

  const Jan: Month := MonthIndex(2025, 1)
  const Feb: Month := MonthIndex(2025, 2)
  const Mar: Month := MonthIndex(2025, 3)

  function Sheet(): seq<SheetRow> {
    [SheetRow(Some("01/2025"), Some("100,00")), SheetRow(Some("03/2025"), Some("110,00"))]
  }

  lemma ExamplePrice100()
    ensures Text.ReadDecimalComma("100,00") == Some(100.0)
  {
    Numeral100();
    WholePrice("100", 100, "100,00");
  }

  /** A cell of a whole number of reais, written with ",00", reads as that number. */
  lemma WholePrice(whole: string, n: nat, cell: string)
    requires Text.AllDigits(whole) && |whole| > 0 && Text.NumeralValue(whole) == n && cell == whole + "," + "00"
    ensures Text.ReadDecimalComma(cell) == Some(n as real)
  {
    Text.DecimalCommaValue(whole, "00");
    WholeValue(whole, n);
  }

  lemma WholeValue(whole: string, n: nat)
    requires Text.AllDigits(whole) && Text.NumeralValue(whole) == n
    ensures Text.DecimalValue(whole, "00") == n as real
  {
    Numeral00();
  }

  lemma Numeral100()
    ensures Text.AllDigits("100") && Text.NumeralValue("100") == 100
  {
    var s := "100";
    assert s[..2] == "10" && s[..2][..1] == "1" && s[..2][..1][..0] == [];
    assert Text.NumeralValue("1") == 1;
    assert Text.NumeralValue("10") == 10;
  }

  lemma ExamplePrice110()
    ensures Text.ReadDecimalComma("110,00") == Some(110.0)
  {
    Numeral110();
    WholePrice("110", 110, "110,00");
  }

  lemma Numeral110()
    ensures Text.AllDigits("110") && Text.NumeralValue("110") == 110
  {
    var s := "110";
    assert s[..2] == "11" && s[..2][..1] == "1" && s[..2][..1][..0] == [];
    assert Text.NumeralValue("1") == 1;
    assert Text.NumeralValue("11") == 11;
  }

  lemma Numeral00()
    ensures Text.AllDigits("00") && Text.NumeralValue("00") == 0 && Text.Pow10(2) == 100
  {
    Text.NumeralValueOfTwo("00");
  }

  /** A month of falling prices, as the index service writes it: "-0.68" reads as -0.68. */
  lemma ExampleFallingIndex(cell: string)
    requires cell == "-" + "0" + "." + "68"
    ensures Text.ReadDecimalComma(cell) == Some(-0.68)
  {
    Value068();
    Text.SignedDecimalPointValue("0", "68");
  }

  lemma Value068()
    ensures Text.AllDigits("0") && Text.AllDigits("68") && Text.DecimalValue("0", "68") == 0.68
  {
    assert Text.AllDigits("0") && Text.NumeralValue("0") == 0 by {
      assert "0"[..0] == [];
    }
    Text.NumeralValueOfTwo("68");
    assert Text.Pow10(2) == 100;
  }

  /** A price written with a thousands separator, "1.234,56", cannot be read. */
  lemma ExampleThousands()
    ensures Text.ReadDecimalComma("1.234,56") == None
  {
    var cell := "1.234,56";
    assert cell[1] == '.' && cell[5] == ',';
    Text.TwoSeparatorsUnreadable(cell, 1, 5);
  }

  lemma ExampleJan()
    ensures Text.ReadMonthYear("01/2025") == Some(Jan)
  {
    Text.MonthYearRoundTrip(Jan);
    assert Jan / 12 == 2025 && Jan % 12 + 1 == 1;
    assert Text.FormatMonthYear(Jan) == "01/2025";
  }

  lemma ExampleMar()
    ensures Text.ReadMonthYear("03/2025") == Some(Mar)
  {
    Text.MonthYearRoundTrip(Mar);
    assert Mar / 12 == 2025 && Mar % 12 + 1 == 3;
    assert Text.FormatMonthYear(Mar) == "03/2025";
  }

  lemma ExampleDated()
    ensures DropUndated(Sheet()) == Sheet()
  {
    var rows := Sheet();
    assert rows[1..][1..] == [];
  }

  lemma ExampleRows()
    ensures RowReadable(Sheet()[0]) && ReadRow(Sheet()[0]) == PriceRow(Jan, Some(100.0))
    ensures RowReadable(Sheet()[1]) && ReadRow(Sheet()[1]) == PriceRow(Mar, Some(110.0))
  {
    ExamplePrice100();
    ExamplePrice110();
    ExampleJan();
    ExampleMar();
  }

  lemma ExampleParsed()
    ensures Parsed(Sheet()) == Some([PriceRow(Jan, Some(100.0)), PriceRow(Mar, Some(110.0))])
  {
    ExampleRows();
    TwoRowsParsed(Sheet(), PriceRow(Jan, Some(100.0)), PriceRow(Mar, Some(110.0)));
  }

  /** A two-row sheet whose rows read parses to the two rows read. */
  lemma TwoRowsParsed(rows: seq<SheetRow>, first: PriceRow, second: PriceRow)
    requires |rows| == 2 && RowReadable(rows[0]) && RowReadable(rows[1])
    requires ReadRow(rows[0]) == first && ReadRow(rows[1]) == second
    ensures Parsed(rows) == Some([first, second])
  {
    assert forall k :: 0 <= k < |rows| ==> RowReadable(rows[k]);
    ParsedOfReadable(rows);
    PairOf(Parsed(rows).value, first, second);
  }

  /** A two-element sequence is the display of its two elements. */
  lemma PairOf(p: seq<PriceRow>, first: PriceRow, second: PriceRow)
    requires |p| == 2 && p[0] == first && p[1] == second
    ensures p == [first, second]
  {
  }

  function ParsedRows(): seq<PriceRow> {
    [PriceRow(Jan, Some(100.0)), PriceRow(Mar, Some(110.0))]
  }

  /** The calendar January to March 2025, February without a price. */
  function PreparedRows(): seq<PriceRow> {
    [PriceRow(Jan, Some(100.0)), PriceRow(Feb, None), PriceRow(Mar, Some(110.0))]
  }

  /** February takes January's price. */
  function NormalizedRows(): seq<PriceRow> {
    [PriceRow(Jan, Some(100.0)), PriceRow(Feb, Some(100.0)), PriceRow(Mar, Some(110.0))]
  }

  lemma ExampleDedup()
    ensures DedupFirst(ParsedRows()) == ParsedRows()
  {
    var p := ParsedRows();
    assert p[..1][..0] == [];
    assert DedupFirst(p[..1]) == p[..1];
    assert FirstIndex(p[..1], Mar) == 1;
  }

  lemma ExampleCalendar()
    ensures MinMonth(ParsedRows()) == Jan && MaxMonth(ParsedRows()) == Mar
    ensures Calendar(Jan, Mar) == [Jan, Feb, Mar]
  {
    assert ParsedRows()[1..] == [PriceRow(Mar, Some(110.0))];
  }

  lemma ExampleJoin()
    ensures DistinctMonths(ParsedRows())
    ensures JoinCalendar([Jan, Feb, Mar], ParsedRows()) == PreparedRows()
  {
    var p := ParsedRows();
    assert PriceAt(p, Jan) == Some(100.0) by {
      FirstIndexIs(p, Jan, 0);
    }
    assert PriceAt(p, Feb) == None by {
      FirstIndexIs(p, Feb, 2);
    }
    assert PriceAt(p, Mar) == Some(110.0) by {
      FirstIndexIs(p, Mar, 1);
    }
  }

  lemma ExamplePrepared()
    ensures Prepare(Sheet()) == Ok(PreparedRows())
  {
    ExampleParsed();
    ExampleDedup();
    ExampleCalendar();
    ExampleJoin();
  }

  lemma ExampleNormalized()
    ensures Normalize.Normalize(Sheet()) == Ok(NormalizedRows())
  {
    NormalizeOfPrepared(Sheet());
    ExamplePrepared();
    ExampleFilled();
    ExampleRefilled();
  }

  lemma ExampleRefilled()
    ensures WithPrices(PreparedRows(), Prices(NormalizedRows())) == NormalizedRows()
  {
  }

  lemma ExampleFilled()
    ensures Columns.FillForward(Prices(PreparedRows())) == Prices(NormalizedRows())
  {
    var prices := Prices(PreparedRows());
    assert prices == [Some(100.0), None, Some(110.0)];
    assert prices[..2][..1] == [Some(100.0)] && prices[..2][..1][..0] == [];
    assert Columns.FillForward(prices[..2][..1]) == [Some(100.0)];
    assert Columns.FillForward(prices[..2]) == [Some(100.0), Some(100.0)];
    assert Columns.FillForward(prices) == [Some(100.0), Some(100.0), Some(110.0)];
  }

  /** The index payload: 0%, 1% and 2% for January to March 2025. */
  function Index(): seq<IndexPoint> {
    [IndexPoint(Jan, 1, 0.0), IndexPoint(Feb, 1, 1.0), IndexPoint(Mar, 1, 2.0)]
  }

  lemma ExampleAccumulated()
    ensures DistinctIndexDates(Index())
    ensures Accumulate.Accumulate(NormalizedRows(), Index())
         == [AccRow(Jan, Some(100.0), 0.0, 0.0), AccRow(Feb, Some(100.0), 1.0, 1.0),
             AccRow(Mar, Some(110.0), 2.0, 3.0)]
  {
    var index := Index();
    IndexValueOfPoint(index, 0);
    IndexValueOfPoint(index, 1);
    IndexValueOfPoint(index, 2);
    var ipca := IndexColumn(NormalizedRows(), index);
    assert ipca == [0.0, 1.0, 2.0];
    assert ipca[..2][..1] == [0.0] && ipca[..2][..1][..0] == [];
    assert Columns.RunningSum(ipca[..2][..1]) == [0.0];
    assert Columns.RunningSum(ipca[..2]) == [0.0, 1.0];
    assert Columns.RunningSum(ipca) == [0.0, 1.0, 3.0];
  }

  /** Corrected to March 2025 (accumulated 3%): January 100 * 1.03, February 100 * 1.02,
      March unchanged. */
  lemma ExampleAdjusted()
    ensures Adjust.Adjust(Accumulate.Accumulate(NormalizedRows(), Index()))
         == Ok([Adjust.AdjustedRow(Jan, Some(100.0), 0.0, 0.0, Some(103.0)),
                Adjust.AdjustedRow(Feb, Some(100.0), 1.0, 1.0, Some(102.0)),
                Adjust.AdjustedRow(Mar, Some(110.0), 2.0, 3.0, Some(110.0))])
  {
    ExampleAccumulated();
    var rows := Accumulate.Accumulate(NormalizedRows(), Index());
    assert Adjust.BaseAccumulated(rows) == Some(3.0) by {
      assert rows[1..][1..][0].month == Mar;
    }
    assert Adjust.Corrected(100.0, 3.0, 0.0) == 103.0;
    assert Adjust.Corrected(100.0, 3.0, 1.0) == 102.0;
    assert Adjust.Corrected(110.0, 3.0, 3.0) == 110.0;
    var r := Adjust.AdjustRows(rows, 3.0);
    assert r[0].adjusted == Some(103.0) && r[1].adjusted == Some(102.0) && r[2].adjusted == Some(110.0);
    assert r == [Adjust.AdjustedRow(Jan, Some(100.0), 0.0, 0.0, Some(103.0)),
                 Adjust.AdjustedRow(Feb, Some(100.0), 1.0, 1.0, Some(102.0)),
                 Adjust.AdjustedRow(Mar, Some(110.0), 2.0, 3.0, Some(110.0))];
  }

  /** A later run against the stored table: February is new, March's price moved from
      110 to 121, and January is only in the table. */
  function LaterNews(): seq<NewRow> {
    [NewRow(Feb, Some(102.0)), NewRow(Mar, Some(121.0))]
  }

  function StoredTable(): seq<StoredRow> {
    [StoredRow(Jan, Some(103.0), Finite(0.0)), StoredRow(Mar, Some(110.0), Finite(0.0))]
  }

  lemma ExampleKeys()
    ensures SortedKeys(NewMonths(LaterNews()) + StoredMonths(StoredTable())) == [Jan, Feb, Mar]
  {
    var ms := NewMonths(LaterNews()) + StoredMonths(StoredTable());
    assert ms == [Feb, Mar, Jan, Mar];
    var r := SortedKeys(ms);
    forall x ensures x in r <==> x in [Jan, Feb, Mar] {
      assert x in ms <==> x == Jan || x == Feb || x == Mar;
    }
    AscendingUnique(r, [Jan, Feb, Mar]);
  }

  /** The written table: the three months in order; January loses its price (the new
      series has none for it) and counts 0; February counts 0; March changed by 10%. */
  lemma ExampleUpsert()
    ensures Upsert.Upsert(LaterNews(), StoredTable())
         == [StoredRow(Jan, None, Finite(0.0)), StoredRow(Feb, Some(102.0), Finite(0.0)),
             StoredRow(Mar, Some(121.0), Finite(10.0))]
  {
    ExampleKeys();
    PercentOfZero();
    Round6Exact(10000000);
    var news, olds := LaterNews(), StoredTable();
    assert NewPriceAt(news, Jan) == None && NewPriceAt(news, Feb) == Some(102.0);
    assert NewPriceAt(news, Mar) == Some(121.0);
    assert OldPriceAt(olds, Jan) == Some(103.0) && OldPriceAt(olds, Feb) == None;
    assert OldPriceAt(olds, Mar) == Some(110.0);
    assert Change(Some(121.0), Some(110.0)) == Finite(0.1);
    assert Percent(Finite(0.1)) == Finite(10.0);
    var joined := OuterJoin(news, olds);
    assert joined == [JoinedRow(Jan, None, Some(103.0)), JoinedRow(Feb, Some(102.0), None),
                      JoinedRow(Mar, Some(121.0), Some(110.0))];
  }
}
