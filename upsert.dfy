/** The upsert of the persisted table: a full outer join on the date between the
    corrected series and the previous table, the month-on-month change between the
    new and the old price, and the projection that keeps only the new price. */
module Upsert {
  import opened Wrappers
  import opened Domain

  /** A float that may have overflowed to an infinity: what a division by a zero
      old price leaves, which fillna(0) does not touch. */
  datatype Extended = Finite(value: real) | PosInf | NegInf

  /** A row of the series entering the stage: the date and cmdty_vl_rs_um. */
  datatype NewRow = NewRow(month: Month, price: Option<real>)

  /** A row of the persisted table: the date, cmdty_vl_rs_um and cmdty_var_mes_perc,
      the percentage (change * 100, rounded to six decimals) whose text carries a '%'. */
  datatype StoredRow = StoredRow(month: Month, price: Option<real>, percent: Extended)

  /** A row of the outer join: the date with the new and the old price (the _novo and
      _antigo columns); a side that has no row for the date is NaN. */
  datatype JoinedRow = JoinedRow(month: Month, novo: Option<real>, antigo: Option<real>)

  predicate StrictlyAscending(ms: seq<Month>) {
    forall i, j :: 0 <= i < j < |ms| ==> ms[i] < ms[j]
  }

  /** Puts m into its place in an ascending list of months, once. */
  function Insert(ms: seq<Month>, m: Month): (r: seq<Month>)
    requires StrictlyAscending(ms)
    ensures StrictlyAscending(r)
    ensures forall x :: x in r <==> x in ms || x == m
  {
    if ms == [] then [m]
    else if m < ms[0] then [m] + ms
    else if m == ms[0] then ms
    else
      var rest := Insert(ms[1..], m);
      assert forall k :: 0 <= k < |rest| ==> ms[0] < rest[k] by {
        forall k | 0 <= k < |rest| ensures ms[0] < rest[k] {
          assert rest[k] in rest;
          if rest[k] != m {
            var j :| 0 <= j < |ms[1..]| && ms[1..][j] == rest[k];
            assert ms[j + 1] == rest[k];
          }
        }
      }
      [ms[0]] + rest
  }

  /** The distinct months of ms in ascending order: the key order of an outer merge. */
  function SortedKeys(ms: seq<Month>): (r: seq<Month>)
    ensures StrictlyAscending(r)
    ensures forall x :: x in r <==> x in ms
  {
    if ms == [] then [] else Insert(SortedKeys(ms[..|ms| - 1]), ms[|ms| - 1])
  }

  /** Two ascending lists with the same months are the same list. */
  lemma {:induction false} AscendingUnique(a: seq<Month>, b: seq<Month>)
    requires StrictlyAscending(a) && StrictlyAscending(b)
    requires forall x :: x in a <==> x in b
    ensures a == b
    decreases |a|
  {
    assert a != [] ==> a[0] in a;
    assert b != [] ==> b[0] in b;
    if a != [] && b != [] {
      var k :| 0 <= k < |b| && b[k] == a[0];
      var l :| 0 <= l < |a| && a[l] == b[0];
      assert forall j :: 0 < j < |b| ==> b[0] < b[j];
      assert forall j :: 0 < j < |a| ==> a[0] < a[j];
      forall x ensures x in a[1..] <==> x in b[1..] {
        if x in a[1..] {
          var k :| 0 <= k < |a[1..]| && a[1..][k] == x;
          assert a[0] < a[k + 1];
          assert x in b && x != b[0];
        }
        if x in b[1..] {
          var k :| 0 <= k < |b[1..]| && b[1..][k] == x;
          assert b[0] < b[k + 1];
          assert x in a && x != a[0];
        }
      }
      AscendingUnique(a[1..], b[1..]);
    }
  }

  function NewMonths(news: seq<NewRow>): (r: seq<Month>)
    ensures |r| == |news| && forall i :: 0 <= i < |news| ==> r[i] == news[i].month
  {
    if news == [] then [] else [news[0].month] + NewMonths(news[1..])
  }

  function StoredMonths(olds: seq<StoredRow>): (r: seq<Month>)
    ensures |r| == |olds| && forall i :: 0 <= i < |olds| ==> r[i] == olds[i].month
  {
    if olds == [] then [] else [olds[0].month] + StoredMonths(olds[1..])
  }

  predicate DistinctNewMonths(news: seq<NewRow>) {
    forall i, j :: 0 <= i < j < |news| ==> news[i].month != news[j].month
  }

  predicate DistinctStoredMonths(olds: seq<StoredRow>) {
    forall i, j :: 0 <= i < j < |olds| ==> olds[i].month != olds[j].month
  }

  /** The _novo cell of month m: the new series' price, NaN where it has no row for m. */
  function NewPriceAt(news: seq<NewRow>, m: Month): Option<real> {
    if news == [] then None else if news[0].month == m then news[0].price else NewPriceAt(news[1..], m)
  }

  /** The _antigo cell of month m: the stored price, NaN where the table has no row for m. */
  function OldPriceAt(olds: seq<StoredRow>, m: Month): Option<real> {
    if olds == [] then None else if olds[0].month == m then olds[0].price else OldPriceAt(olds[1..], m)
  }

  lemma {:induction false} NewPriceOfRow(news: seq<NewRow>, k: nat)
    requires DistinctNewMonths(news) && k < |news|
    ensures NewPriceAt(news, news[k].month) == news[k].price
  {
    if k > 0 {
      assert news[0].month != news[k].month;
      NewPriceOfRow(news[1..], k - 1);
    }
  }

  lemma {:induction false} NewPriceMissing(news: seq<NewRow>, m: Month)
    requires m !in NewMonths(news)
    ensures NewPriceAt(news, m) == None
  {
    if news != [] {
      assert NewMonths(news[1..]) == NewMonths(news)[1..];
      NewPriceMissing(news[1..], m);
    }
  }

  lemma {:induction false} OldPriceOfRow(olds: seq<StoredRow>, k: nat)
    requires DistinctStoredMonths(olds) && k < |olds|
    ensures OldPriceAt(olds, olds[k].month) == olds[k].price
  {
    if k > 0 {
      assert olds[0].month != olds[k].month;
      OldPriceOfRow(olds[1..], k - 1);
    }
  }

  /** Lines 105-111: pd.merge(how="outer") on the date. Each side has one row per date
      (a repeated date would multiply rows), so the join has one row per date of either
      side, in ascending date order. */
  function OuterJoin(news: seq<NewRow>, olds: seq<StoredRow>): (r: seq<JoinedRow>)
    requires DistinctNewMonths(news) && DistinctStoredMonths(olds)
  {
    var keys := SortedKeys(NewMonths(news) + StoredMonths(olds));
    JoinKeys(keys, news, olds)
  }

  function JoinKeys(keys: seq<Month>, news: seq<NewRow>, olds: seq<StoredRow>): (r: seq<JoinedRow>)
    ensures |r| == |keys| && forall i :: 0 <= i < |keys| ==>
              r[i] == JoinedRow(keys[i], NewPriceAt(news, keys[i]), OldPriceAt(olds, keys[i]))
  {
    if keys == [] then []
    else [JoinedRow(keys[0], NewPriceAt(news, keys[0]), OldPriceAt(olds, keys[0]))]
         + JoinKeys(keys[1..], news, olds)
  }

  /** Lines 113-115: (novo - antigo) / antigo, then fillna(0). NaN on either side and 0/0
      are NaN and become 0; a non-zero price over a zero old price is an infinity. */
  function Change(novo: Option<real>, antigo: Option<real>): Extended {
    if novo.None? || antigo.None? then Finite(0.0)
    else if antigo.value != 0.0 then Finite((novo.value - antigo.value) / antigo.value)
    else if novo.value > 0.0 then PosInf
    else if novo.value < 0.0 then NegInf
    else Finite(0.0)
  }

  /** round(6): the nearest multiple of 10^-6, a tie going to the even multiple. */
  function Round6(x: real): (r: real)
    ensures (r * 1000000.0).Floor as real == r * 1000000.0
    ensures -1.0 / 2000000.0 <= r - x <= 1.0 / 2000000.0
  {
    var scaled := x * 1000000.0;
    var below := scaled.Floor;
    var rest := scaled - below as real;
    var n := if rest < 0.5 then below
             else if rest > 0.5 then below + 1
             else if below % 2 == 0 then below
             else below + 1;
    n as real / 1000000.0
  }

  /** Lines 118-120: the change times 100, rounded to six decimals; an infinity stays one. */
  function Percent(change: Extended): Extended {
    match change
    case Finite(v) => Finite(Round6(v * 100.0))
    case PosInf => PosInf
    case NegInf => NegInf
  }

  function Project(joined: seq<JoinedRow>): (r: seq<StoredRow>)
    ensures |r| == |joined| && forall i :: 0 <= i < |joined| ==>
              r[i] == StoredRow(joined[i].month, joined[i].novo, Percent(Change(joined[i].novo, joined[i].antigo)))
  {
    if joined == [] then []
    else [StoredRow(joined[0].month, joined[0].novo, Percent(Change(joined[0].novo, joined[0].antigo)))]
         + Project(joined[1..])
  }

  /** Lines 105-124: the table written back: the join projected on the date, the new
      price (renamed cmdty_vl_rs_um) and the freshly computed percentage. */
  function Upsert(news: seq<NewRow>, olds: seq<StoredRow>): seq<StoredRow>
    requires DistinctNewMonths(news) && DistinctStoredMonths(olds)
  {
    Project(OuterJoin(news, olds))
  }

  /** One row per date of either input, in strictly ascending date order. */
  lemma UpsertMonths(news: seq<NewRow>, olds: seq<StoredRow>)
    requires DistinctNewMonths(news) && DistinctStoredMonths(olds)
    ensures var r := Upsert(news, olds);
            && StrictlyAscending(StoredMonths(r))
            && forall m :: m in StoredMonths(r) <==> m in NewMonths(news) || m in StoredMonths(olds)
  {
    var keys := SortedKeys(NewMonths(news) + StoredMonths(olds));
    assert StoredMonths(Upsert(news, olds)) == keys;
  }

  /** Every row of the result carries the new price of its date, and its percentage
      compares that price with the stored one. */
  lemma UpsertRow(news: seq<NewRow>, olds: seq<StoredRow>, i: nat)
    requires DistinctNewMonths(news) && DistinctStoredMonths(olds) && i < |Upsert(news, olds)|
    ensures var row := Upsert(news, olds)[i];
            && row.price == NewPriceAt(news, row.month)
            && row.percent == Percent(Change(NewPriceAt(news, row.month), OldPriceAt(olds, row.month)))
  {
  }

  /** A date found only in the stored table keeps no price: the old one is not carried over. */
  lemma OnlyStoredHasNoPrice(news: seq<NewRow>, olds: seq<StoredRow>, i: nat)
    requires DistinctNewMonths(news) && DistinctStoredMonths(olds) && i < |Upsert(news, olds)|
    requires Upsert(news, olds)[i].month !in NewMonths(news)
    ensures Upsert(news, olds)[i].price == None && Upsert(news, olds)[i].percent == Finite(0.0)
  {
    NewPriceMissing(news, Upsert(news, olds)[i].month);
    assert Round6(0.0) == 0.0;
  }

  /** Every row of the new series is in the result with its own price. */
  lemma UpsertKeepsNewRow(news: seq<NewRow>, olds: seq<StoredRow>, k: nat)
    requires DistinctNewMonths(news) && DistinctStoredMonths(olds) && k < |news|
    ensures exists i :: 0 <= i < |Upsert(news, olds)|
              && Upsert(news, olds)[i].month == news[k].month && Upsert(news, olds)[i].price == news[k].price
  {
    UpsertMonths(news, olds);
    var r := Upsert(news, olds);
    assert news[k].month in NewMonths(news);
    var i :| 0 <= i < |StoredMonths(r)| && StoredMonths(r)[i] == news[k].month;
    NewPriceOfRow(news, k);
  }

  /** The stage reads nothing of the stored table but its dates and prices: a previous
      percentage column never survives. */
  lemma StoredPercentIgnored(news: seq<NewRow>, olds: seq<StoredRow>, olds': seq<StoredRow>)
    requires DistinctNewMonths(news) && DistinctStoredMonths(olds)
    requires |olds'| == |olds|
    requires forall i :: 0 <= i < |olds| ==> olds'[i].month == olds[i].month && olds'[i].price == olds[i].price
    ensures DistinctStoredMonths(olds') && Upsert(news, olds') == Upsert(news, olds)
  {
    assert StoredMonths(olds') == StoredMonths(olds);
    forall m ensures OldPriceAt(olds', m) == OldPriceAt(olds, m) {
      SamePrices(olds, olds', m);
    }
  }

  lemma {:induction false} SamePrices(olds: seq<StoredRow>, olds': seq<StoredRow>, m: Month)
    requires |olds'| == |olds|
    requires forall i :: 0 <= i < |olds| ==> olds'[i].month == olds[i].month && olds'[i].price == olds[i].price
    ensures OldPriceAt(olds', m) == OldPriceAt(olds, m)
  {
    if olds != [] {
      SamePrices(olds[1..], olds'[1..], m);
    }
  }

  /** With both prices present and a non-zero old price, the change is (new - old) / old,
      and the new price is recovered as old * (1 + change). */
  lemma ChangeOfPrices(novo: real, antigo: real)
    requires antigo != 0.0
    ensures Change(Some(novo), Some(antigo)) == Finite((novo - antigo) / antigo)
    ensures novo == antigo * (1.0 + Change(Some(novo), Some(antigo)).value)
  {
    var c := (novo - antigo) / antigo;
    assert antigo * c == novo - antigo;
  }

  /** The change is 0 exactly when a side is missing or the two prices are equal. */
  lemma ChangeZero(novo: Option<real>, antigo: Option<real>)
    ensures Change(novo, antigo) == Finite(0.0)
        <==> novo.None? || antigo.None? || novo.value == antigo.value
  {
    if novo.Some? && antigo.Some? && antigo.value != 0.0 && novo.value != antigo.value {
      var c := (novo.value - antigo.value) / antigo.value;
      assert antigo.value * c == novo.value - antigo.value;
    }
  }

  /** The change is infinite exactly when a non-zero new price meets a zero old price,
      with the sign of the new price. */
  lemma ChangeInfinite(novo: Option<real>, antigo: Option<real>)
    ensures !Change(novo, antigo).Finite?
        <==> novo.Some? && antigo.Some? && antigo.value == 0.0 && novo.value != 0.0
    ensures Change(novo, antigo).PosInf? <==> novo.Some? && antigo.Some? && antigo.value == 0.0 && novo.value > 0.0
  {
  }

  /** A percentage that is already a multiple of 10^-6 is stored as it is; in particular 0. */
  lemma {:induction false} Round6Exact(n: int)
    ensures Round6(n as real / 1000000.0) == n as real / 1000000.0
  {
    var x := n as real / 1000000.0;
    assert x * 1000000.0 == n as real;
    assert (x * 1000000.0).Floor == n;
  }

  /** A change of 0 is stored as the percentage 0. */
  lemma PercentOfZero()
    ensures Percent(Finite(0.0)) == Finite(0.0)
  {
    Round6Exact(0);
  }

  /** Running the stage again with the same new series against the table it just wrote
      leaves the dates and prices as they are and sets every percentage to 0. */
  lemma RerunGivesZero(news: seq<NewRow>, olds: seq<StoredRow>)
    requires DistinctNewMonths(news) && DistinctStoredMonths(olds)
    ensures var first := Upsert(news, olds);
            && DistinctStoredMonths(first)
            && var second := Upsert(news, first);
            && |second| == |first|
            && forall i :: 0 <= i < |first| ==>
                 second[i].month == first[i].month && second[i].price == first[i].price
                 && second[i].percent == Finite(0.0)
  {
    var first := Upsert(news, olds);
    UpsertMonths(news, olds);
    var keys := StoredMonths(first);
    assert DistinctStoredMonths(first) by {
      forall i, j | 0 <= i < j < |first| ensures first[i].month != first[j].month {
        assert keys[i] < keys[j];
      }
    }
    var keys2 := SortedKeys(NewMonths(news) + keys);
    assert forall x :: x in keys2 <==> x in keys by {
      forall x ensures x in keys2 <==> x in keys {
        if x in NewMonths(news) {
          assert x in keys;
        }
      }
    }
    AscendingUnique(keys2, keys);
    var second := Upsert(news, first);
    assert StoredMonths(second) == keys2;
    forall i | 0 <= i < |first|
      ensures second[i].month == first[i].month && second[i].price == first[i].price
      ensures second[i].percent == Finite(0.0)
    {
      OldPriceOfRow(first, i);
      ChangeZero(first[i].price, first[i].price);
      PercentOfZero();
    }
  }
}
