/**
 * The command-line report (`generate_report`) and the CSV export
 * (`export_csv`) over the order list read from the orders file.
 */
module Analyze {
  import opened Wrappers
  import opened Counting
  import opened Orders

  // ---- The report ----

  /** A line of the recommendations block; the message text is not modelled. */
  datatype Advice =
    | IncreaseStock(drink: Option<string>)  // "Aumente o estoque de ..."
    | TooManyPending                         // "Muitos pedidos pendentes! ..."
    | HighVolume                             // "Alto volume de pedidos ..."

  /** What the report shows, section by section. */
  datatype Report = Report(
    totalOrders: nat,
    statusCounts: seq<(string, nat)>,        // `status_count.most_common()`
    topDrinks: seq<(Option<string>, nat)>,   // `drinks.most_common(5)`
    topTables: seq<(string, nat)>,           // `mesas.most_common(5)`, shown only when non-empty
    peakHour: (nat, nat),                    // `hora_counter.most_common(1)[0]`
    hourDistribution: seq<(nat, nat)>,       // hours in ascending order with their counts
    advice: seq<Advice>)

  /**
   * The keys of the hour counter from hour `h` on, in ascending order, each
   * with its count: `sorted(hora_counter.keys())` when every hour is below 24.
   */
  function HoursFrom(hours: seq<nat>, h: nat): (r: seq<(nat, nat)>)
    ensures forall i :: 0 <= i < |r| ==> h <= r[i].0 < 24
    decreases 24 - h
  {
    if h >= 24 then []
    else if h in hours then [(h, Count(hours, h))] + HoursFrom(hours, h + 1)
    else HoursFrom(hours, h + 1)
  }

  /**
   * The recommendations block: restock the most ordered drink, warn when more
   * than 5 orders are pending, note a volume of more than 50 orders.
   */
  function Advise(orders: seq<Order>): (advice: seq<Advice>)
    requires orders != []
    ensures |advice| >= 1 && advice[0].IncreaseStock? && advice[0].drink in DrinkNames(orders)
    ensures forall d :: Count(DrinkNames(orders), d) <= Count(DrinkNames(orders), advice[0].drink)
    ensures TooManyPending in advice <==> PendingCount(orders) > 5
    ensures HighVolume in advice <==> |orders| > 50
  {
    var pending := if PendingCount(orders) > 5 then [TooManyPending] else [];
    var volume := if |orders| > 50 then [HighVolume] else [];
    var advice := [IncreaseStock(TopKey(DrinkNames(orders)))] + pending + volume;
    assert TooManyPending in advice <==> TooManyPending in pending;
    assert HighVolume in advice <==> HighVolume in volume;
    advice
  }

  /**
   * The report of a non-empty order list whose timestamps all have an hour:
   * it counts every order, shows at most five drinks and five tables, names
   * as peak an hour some order was placed in, and gives the recommendations
   * of `Advise`.
   */
  function Summarize(orders: seq<Order>): (rep: Report)
    requires orders != [] && HoursOf(orders).Some?
    ensures rep.totalOrders == |orders| && |rep.topDrinks| <= 5 && |rep.topTables| <= 5
    ensures rep.peakHour.0 in HoursOf(orders).value
    ensures rep.advice == Advise(orders)
  {
    var hours := HoursOf(orders).value;
    MostCommonFirstIsMax(hours, 1);
    Report(|orders|, MostCommonAll(StatusNames(orders)), MostCommon(DrinkNames(orders), 5),
           MostCommon(TruthyTables(orders), 5), MostCommon(hours, 1)[0],
           HoursFrom(hours, 0), Advise(orders))
  }

  /** `generate_report`: nothing for an empty list, an error when a timestamp does not parse. */
  function GenerateReport(orders: seq<Order>): (r: Result<Option<Report>, TimestampError>)
    ensures r == Ok(None) <==> orders == []
    ensures r.Err? <==> orders != [] && exists i :: 0 <= i < |orders| && HourOf(orders[i].timestamp).None?
    ensures r.Ok? && r.value.Some? ==> r.value.value == Summarize(orders)
  {
    if orders == [] then Ok(None)
    else if HoursOf(orders).None? then Err(BadTimestamp)
    else Ok(Some(Summarize(orders)))
  }

  /** The status histogram: only statuses that occur, every order counted once under its status, most frequent first. */
  lemma StatusHistogram(orders: seq<Order>)
    requires orders != [] && HoursOf(orders).Some?
    ensures Summarize(orders).totalOrders == |orders|
    ensures var h := Summarize(orders).statusCounts;
      Total(h) == |orders| && Distinct(Keys(h))
    ensures var h := Summarize(orders).statusCounts;
      forall i :: 0 <= i < |orders| ==> StatusName(orders[i].status) in Keys(h)
    ensures var h := Summarize(orders).statusCounts;
      forall i :: 0 <= i < |h| ==> h[i].0 in StatusNames(orders) && h[i].1 == Count(StatusNames(orders), h[i].0)
    ensures var h := Summarize(orders).statusCounts;
      forall i, j :: 0 <= i < j < |h| ==> h[j].1 <= h[i].1
  {
    var rep := Summarize(orders);
    var statuses := StatusNames(orders);
    MostCommonAllTotal(statuses);
    MostCommonAllSpec(statuses);
    forall i | 0 <= i < |orders| ensures StatusName(orders[i].status) in Keys(rep.statusCounts) {
      assert statuses[i] == StatusName(orders[i].status);
    }
  }

  /** The top drinks: at most 5, exact counts, most ordered first; none left out has more orders than the last. */
  lemma TopDrinks(orders: seq<Order>)
    requires orders != [] && HoursOf(orders).Some?
    ensures var r := Summarize(orders).topDrinks;
      |r| <= 5 && Distinct(Keys(r))
    ensures var r := Summarize(orders).topDrinks;
      forall i :: 0 <= i < |r| ==> r[i].0 in DrinkNames(orders) && r[i].1 == Count(DrinkNames(orders), r[i].0)
    ensures var r := Summarize(orders).topDrinks;
      forall i, j :: 0 <= i < j < |r| ==> r[j].1 <= r[i].1
    ensures var r := Summarize(orders).topDrinks;
      forall d :: d in DrinkNames(orders) && d !in Keys(r) ==> |r| == 5 && Count(DrinkNames(orders), d) <= r[4].1
  {
    var rep := Summarize(orders);
    MostCommonSpec(DrinkNames(orders), 5);
  }

  /** The top tables: at most 5, only non-empty tables some order was placed at, exact counts, busiest first; none left out has more orders than the last. */
  lemma TopTables(orders: seq<Order>)
    requires orders != [] && HoursOf(orders).Some?
    ensures var r := Summarize(orders).topTables;
      |r| <= 5 && Distinct(Keys(r))
    ensures var r := Summarize(orders).topTables;
      forall i :: 0 <= i < |r| ==>
        r[i].0 != "" && Some(r[i].0) in Tables(orders) && r[i].1 == Count(Tables(orders), Some(r[i].0))
    ensures var r := Summarize(orders).topTables;
      forall i, j :: 0 <= i < j < |r| ==> r[j].1 <= r[i].1
    ensures var r := Summarize(orders).topTables;
      forall m :: m != "" && Some(m) in Tables(orders) && m !in Keys(r) ==> |r| == 5 && Count(Tables(orders), Some(m)) <= r[4].1
  {
    var rep := Summarize(orders);
    MostCommonSpec(TruthyTables(orders), 5);
    forall m | m != "" && Some(m) in Tables(orders) && m !in Keys(rep.topTables)
      ensures |rep.topTables| == 5 && Count(Tables(orders), Some(m)) <= rep.topTables[4].1
    {
      TruthyTablesCount(orders, m);
    }
    forall i | 0 <= i < |rep.topTables|
      ensures rep.topTables[i].0 != "" && Some(rep.topTables[i].0) in Tables(orders) &&
              rep.topTables[i].1 == Count(Tables(orders), Some(rep.topTables[i].0))
    {
      var m := rep.topTables[i].0;
      TruthyTablesCount(orders, m);
      assert Count(TruthyTables(orders), m) > 0;
    }
  }

  /** The tables section is shown exactly when some order has a non-empty table. */
  lemma TablesShown(orders: seq<Order>)
    requires orders != [] && HoursOf(orders).Some?
    ensures Summarize(orders).topTables != [] <==> exists i :: 0 <= i < |orders| && IsTruthy(orders[i].mesa)
  {
    var rep := Summarize(orders);
    assert rep.topTables == MostCommon(TruthyTables(orders), 5);
    MostCommonEmpty(TruthyTables(orders), 5);
    TruthyTablesEmpty(orders);
  }

  /** The peak hour is a valid hour whose count is its number of orders, at least that of every hour. */
  lemma PeakHour(orders: seq<Order>)
    requires orders != [] && HoursOf(orders).Some?
    ensures var (hour, n) := Summarize(orders).peakHour;
      hour < 24 && n == OrdersInHour(orders, hour)
    ensures forall h :: OrdersInHour(orders, h) <= Summarize(orders).peakHour.1
  {
    var rep := Summarize(orders);
    var hours := HoursOf(orders).value;
    MostCommonFirstIsMax(hours, 1);
    var top := rep.peakHour.0;
    var j :| 0 <= j < |hours| && hours[j] == top;
    assert HourOf(orders[j].timestamp) == Some(top);
    HoursCount(orders, top);
    forall h ensures OrdersInHour(orders, h) <= rep.peakHour.1 {
      HoursCount(orders, h);
    }
  }

  /** Each line of `HoursFrom` is an hour in `h..23` that occurs, with its count. */
  lemma {:induction false} HoursFromEntries(hours: seq<nat>, h: nat)
    ensures forall i :: 0 <= i < |HoursFrom(hours, h)| ==>
      h <= HoursFrom(hours, h)[i].0 < 24 && HoursFrom(hours, h)[i].0 in hours &&
      HoursFrom(hours, h)[i].1 == Count(hours, HoursFrom(hours, h)[i].0)
    decreases 24 - h
  {
    if h < 24 {
      HoursFromEntries(hours, h + 1);
      var rest := HoursFrom(hours, h + 1);
      if h in hours {
        var d := HoursFrom(hours, h);
        assert d == [(h, Count(hours, h))] + rest;
        forall i | 0 <= i < |d|
          ensures h <= d[i].0 < 24 && d[i].0 in hours && d[i].1 == Count(hours, d[i].0)
        {
          if i > 0 {
            assert d[i] == rest[i - 1];
          }
        }
      }
    }
  }

  /** The hours of `HoursFrom` strictly ascend. */
  lemma {:induction false} HoursFromAscending(hours: seq<nat>, h: nat)
    ensures forall i, j :: 0 <= i < j < |HoursFrom(hours, h)| ==> HoursFrom(hours, h)[i].0 < HoursFrom(hours, h)[j].0
    decreases 24 - h
  {
    if h < 24 {
      HoursFromAscending(hours, h + 1);
      HoursFromEntries(hours, h + 1);
      var rest := HoursFrom(hours, h + 1);
      if h in hours {
        var d := HoursFrom(hours, h);
        assert forall i :: 1 <= i < |d| ==> d[i] == rest[i - 1];
      }
    }
  }

  /** Every hour in `h..23` that occurs has a line in `HoursFrom`. */
  lemma {:induction false} HoursFromComplete(hours: seq<nat>, h: nat)
    ensures forall x :: x in hours && h <= x < 24 ==> x in Keys(HoursFrom(hours, h))
    decreases 24 - h
  {
    if h < 24 {
      HoursFromComplete(hours, h + 1);
      var rest := HoursFrom(hours, h + 1);
      if h in hours {
        var d := HoursFrom(hours, h);
        assert Keys(d) == [h] + Keys(rest);
      }
    }
  }

  /** Adding one more hour to the list adds one to the total of the lines that cover it. */
  lemma {:induction false} HoursFromTotalStep(hours: seq<nat>, x: nat, h: nat)
    ensures Total(HoursFrom(hours + [x], h)) == Total(HoursFrom(hours, h)) + if h <= x < 24 then 1 else 0
    decreases 24 - h
  {
    if h < 24 {
      HoursFromTotalStep(hours, x, h + 1);
      CountAppend(hours, x, h);
      var e, e' := HoursFrom(hours, h + 1), HoursFrom(hours + [x], h + 1);
      if h in hours {
        assert HoursFrom(hours, h) == [(h, Count(hours, h))] + e;
        assert Total(HoursFrom(hours, h)) == Count(hours, h) + Total(e);
      } else {
        assert HoursFrom(hours, h) == e;
      }
      if h in hours + [x] {
        assert HoursFrom(hours + [x], h) == [(h, Count(hours + [x], h))] + e';
        assert Total(HoursFrom(hours + [x], h)) == Count(hours + [x], h) + Total(e');
      } else {
        assert HoursFrom(hours + [x], h) == e';
      }
    }
  }

  /** When every hour is below 24, the distribution counts every order exactly once. */
  lemma {:induction false} HoursFromTotal(hours: seq<nat>)
    requires forall i :: 0 <= i < |hours| ==> hours[i] < 24
    ensures Total(HoursFrom(hours, 0)) == |hours|
  {
    if hours == [] {
      HoursFromEntries(hours, 0);
    } else {
      var prefix, x := hours[..|hours| - 1], hours[|hours| - 1];
      HoursFromTotal(prefix);
      HoursFromTotalStep(prefix, x, 0);
      assert hours == prefix + [x];
    }
  }

  /** The distribution of the hours of the orders lists valid hours in ascending order, each with its exact, non-zero number of orders. */
  lemma DistributionEntries(orders: seq<Order>, hours: seq<nat>)
    requires HoursOf(orders) == Some(hours)
    ensures forall i, j :: 0 <= i < j < |HoursFrom(hours, 0)| ==> HoursFrom(hours, 0)[i].0 < HoursFrom(hours, 0)[j].0
    ensures forall i :: 0 <= i < |HoursFrom(hours, 0)| ==>
              HoursFrom(hours, 0)[i].0 < 24 && 0 < HoursFrom(hours, 0)[i].1 &&
              HoursFrom(hours, 0)[i].1 == OrdersInHour(orders, HoursFrom(hours, 0)[i].0)
  {
    var dist := HoursFrom(hours, 0);
    HoursFromEntries(hours, 0);
    HoursFromAscending(hours, 0);
    forall i | 0 <= i < |dist|
      ensures dist[i].1 == OrdersInHour(orders, dist[i].0)
    {
      HoursCount(orders, dist[i].0);
    }
  }

  /** The hourly distribution lists valid hours in ascending order, each with its exact, non-zero number of orders. */
  lemma HourDistribution(orders: seq<Order>)
    requires orders != [] && HoursOf(orders).Some?
    ensures var d := Summarize(orders).hourDistribution;
      forall i, j :: 0 <= i < j < |d| ==> d[i].0 < d[j].0
    ensures var d := Summarize(orders).hourDistribution;
      forall i :: 0 <= i < |d| ==> d[i].0 < 24 && 0 < d[i].1 && d[i].1 == OrdersInHour(orders, d[i].0)
  {
    DistributionEntries(orders, HoursOf(orders).value);
  }

  /** Every order's hour is a key of the distribution of the hours of the orders, and its counts add up to all orders. */
  lemma {:induction false} DistributionCovers(orders: seq<Order>, hours: seq<nat>)
    requires HoursOf(orders) == Some(hours)
    ensures forall i :: 0 <= i < |orders| ==>
              HourOf(orders[i].timestamp).Some? && HourOf(orders[i].timestamp).value in Keys(HoursFrom(hours, 0))
    ensures Total(HoursFrom(hours, 0)) == |orders|
  {
    HoursFromComplete(hours, 0);
    HoursFromTotal(hours);
    forall i | 0 <= i < |orders|
      ensures HourOf(orders[i].timestamp).Some? && HourOf(orders[i].timestamp).value in Keys(HoursFrom(hours, 0))
    {
      assert hours[i] in hours;
    }
  }

  /** The hourly distribution misses no order: every order's hour is listed, and the counts add up to all orders. */
  lemma HourDistributionComplete(orders: seq<Order>)
    requires orders != [] && HoursOf(orders).Some?
    ensures var d := Summarize(orders).hourDistribution;
      forall i :: 0 <= i < |orders| ==> HourOf(orders[i].timestamp).Some? && HourOf(orders[i].timestamp).value in Keys(d)
    ensures Total(Summarize(orders).hourDistribution) == |orders|
  {
    DistributionCovers(orders, HoursOf(orders).value);
  }

  /** The recommendations: the stock advice, then the pending warning when due, then the volume note when due. */
  lemma RecommendationsShape(orders: seq<Order>)
    requires orders != [] && HoursOf(orders).Some?
    ensures var advice := Summarize(orders).advice;
      advice == [IncreaseStock(advice[0].drink)]
                + (if PendingCount(orders) > 5 then [TooManyPending] else [])
                + (if |orders| > 50 then [HighVolume] else [])
  {
  }

  // ---- The CSV export ----

  /** The column names of the export. */
  const Columns: seq<string> := ["ID", "Drink", "Mesa", "Timestamp", "Status", "Evento"]

  /** The header line of the export: `ID,Drink,Mesa,Timestamp,Status,Evento`. */
  const Header: string := Join(Columns, ',')

  /** The decimal digit for `d`. */
  function DigitChar(d: nat): (c: char)
    requires d < 10
    ensures IsDigit(c) && DigitValue(c) == d
  {
    ('0' as int + d) as char
  }

  /** `str(n)` for a natural number: decimal digits, no leading zero. */
  function NatToString(n: nat): (s: string)
    ensures s != [] && forall i :: 0 <= i < |s| ==> IsDigit(s[i])
    ensures s[0] == '0' ==> n == 0
  {
    if n < 10 then [DigitChar(n)] else NatToString(n / 10) + [DigitChar(n % 10)]
  }

  /** The value of a string of decimal digits. */
  function ParseNat(s: string): nat
    requires forall i :: 0 <= i < |s| ==> IsDigit(s[i])
  {
    if s == [] then 0 else ParseNat(s[..|s| - 1]) * 10 + DigitValue(s[|s| - 1])
  }

  /** Reading back an order id written to the CSV gives the id. */
  lemma {:induction false} ParseNatToString(n: nat)
    ensures ParseNat(NatToString(n)) == n
  {
    if n >= 10 {
      var s := NatToString(n);
      assert s[..|s| - 1] == NatToString(n / 10);
      ParseNatToString(n / 10);
    }
  }

  /** `str(v)` of a JSON string or null. */
  function Show(v: Option<string>): string
  {
    match v
    case None => "None"
    case Some(s) => s
  }

  /** The six values of an order's CSV line, in column order. */
  function Fields(o: Order): (f: seq<string>)
    ensures |f| == 6
  {
    [NatToString(o.id), Show(o.drinkName), Show(o.mesa), o.timestamp, StatusName(o.status), o.evento]
  }

  /** Values joined with a separator, with no quoting or escaping. */
  function Join(fields: seq<string>, sep: char): string
    requires fields != []
  {
    if |fields| == 1 then fields[0] else fields[0] + [sep] + Join(fields[1..], sep)
  }

  /** A line cut at every separator. */
  function Split(line: string, sep: char): (parts: seq<string>)
    ensures parts != []
    decreases |line|
  {
    if sep !in line then [line]
    else
      var i := FirstIndex(line, sep);
      [line[..i]] + Split(line[i + 1..], sep)
  }

  /** An order's CSV line: five separating commas, plus those inside the values. */
  function Row(o: Order): (r: string)
    ensures Count(r, ',') == 5 + SepCount(Fields(o), ',')
  {
    JoinSeparators(Fields(o), ',');
    Join(Fields(o), ',')
  }

  /** One CSV line per order, in order. */
  function Rows(orders: seq<Order>): (rows: seq<string>)
    ensures |rows| == |orders| && forall i :: 0 <= i < |orders| ==> rows[i] == Row(orders[i])
  {
    seq(|orders|, i requires 0 <= i < |orders| => Row(orders[i]))
  }

  /** `export_csv`: nothing for an empty list; otherwise the header and one line per order, in order. */
  function ExportCsv(orders: seq<Order>): (lines: Option<seq<string>>)
    ensures lines.None? <==> orders == []
    ensures lines.Some? ==> |lines.value| == |orders| + 1 && lines.value[0] == Header
    ensures lines.Some? ==> forall i :: 0 <= i < |orders| ==> lines.value[i + 1] == Row(orders[i])
  {
    if orders == [] then None
    else
      var rows := Rows(orders);
      assert forall i :: 0 <= i < |orders| ==> ([Header] + rows)[i + 1] == rows[i];
      Some([Header] + rows)
  }

  /** Separators inside the values, over all values. */
  function SepCount(fields: seq<string>, sep: char): nat
  {
    if fields == [] then 0 else Count(fields[0], sep) + SepCount(fields[1..], sep)
  }

  /** A line splits into one more part than it has separators. */
  lemma {:induction false} SplitLength(line: string, sep: char)
    ensures |Split(line, sep)| == Count(line, sep) + 1
    decreases |line|
  {
    if sep in line {
      var i := FirstIndex(line, sep);
      SplitLength(line[i + 1..], sep);
      assert line == line[..i] + [sep] + line[i + 1..];
      CountConcat(line[..i] + [sep], line[i + 1..], sep);
      CountConcat(line[..i], [sep], sep);
      assert Count(line[..i], sep) == 0;
      assert Count([sep], sep) == Count([], sep) + 1 by { CountAppend([], sep, sep); }
    } else {
      assert Count(line, sep) == 0;
    }
  }

  /** A joined line has one separator between each pair of values, plus those inside the values. */
  lemma {:induction false} JoinSeparators(fields: seq<string>, sep: char)
    requires fields != []
    ensures Count(Join(fields, sep), sep) == |fields| - 1 + SepCount(fields, sep)
  {
    if |fields| == 1 {
      assert SepCount(fields[1..], sep) == 0;
    } else {
      JoinSeparators(fields[1..], sep);
      CountConcat(fields[0] + [sep], Join(fields[1..], sep), sep);
      CountConcat(fields[0], [sep], sep);
      assert Count([sep], sep) == Count([], sep) + 1 by { CountAppend([], sep, sep); }
    }
  }

  /** No value holds a separator exactly when the separators inside the values number zero. */
  lemma {:induction false} SepCountZero(fields: seq<string>, sep: char)
    ensures SepCount(fields, sep) == 0 <==> forall i :: 0 <= i < |fields| ==> sep !in fields[i]
  {
    if fields != [] {
      SepCountZero(fields[1..], sep);
      if SepCount(fields, sep) == 0 {
        forall i | 0 <= i < |fields| ensures sep !in fields[i] {
          if i > 0 {
            assert fields[i] == fields[1..][i - 1];
          }
        }
      } else if Count(fields[0], sep) == 0 {
        var i :| 0 <= i < |fields[1..]| && sep in fields[1..][i];
        assert sep in fields[i + 1];
      }
    }
  }

  /** A joined line of several values: the first value, a separator, then the rest joined. */
  lemma JoinCons(fields: seq<string>, sep: char)
    requires |fields| > 1
    ensures |fields[0]| < |Join(fields, sep)|
    ensures Join(fields, sep)[..|fields[0]|] == fields[0] && Join(fields, sep)[|fields[0]|] == sep
    ensures Join(fields, sep)[|fields[0]| + 1..] == Join(fields[1..], sep)
  {
    var head, line, rest := fields[0] + [sep], Join(fields, sep), Join(fields[1..], sep);
    assert line == head + rest;
    assert line[..|head|] == head;
    assert head[..|fields[0]|] == fields[0];
    assert line[|head|..] == rest;
  }

  /** A line whose first separator is at `n` splits into the part before it and the parts of the rest. */
  lemma SplitAt(line: string, sep: char, n: nat)
    requires n < |line| && line[n] == sep && sep !in line[..n]
    ensures Split(line, sep) == [line[..n]] + Split(line[n + 1..], sep)
  {
    assert FirstIndex(line, sep) == n;
  }

  /** Splitting a joined line gives back the values when none holds the separator. */
  lemma {:induction false} SplitJoin(fields: seq<string>, sep: char)
    requires fields != []
    requires forall i :: 0 <= i < |fields| ==> sep !in fields[i]
    ensures Split(Join(fields, sep), sep) == fields
  {
    if |fields| > 1 {
      JoinCons(fields, sep);
      SplitAt(Join(fields, sep), sep, |fields[0]|);
      forall i | 0 <= i < |fields[1..]| ensures sep !in fields[1..][i] {
        assert fields[1..][i] == fields[i + 1];
      }
      SplitJoin(fields[1..], sep);
      assert [fields[0]] + fields[1..] == fields;
    }
  }

  /**
   * Splitting a joined line at the separator gives back exactly the values
   * if and only if no value holds the separator: nothing is quoted.
   */
  lemma RowRoundTrip(fields: seq<string>, sep: char)
    requires fields != []
    ensures Split(Join(fields, sep), sep) == fields <==> forall i :: 0 <= i < |fields| ==> sep !in fields[i]
  {
    SepCountZero(fields, sep);
    if forall i :: 0 <= i < |fields| ==> sep !in fields[i] {
      SplitJoin(fields, sep);
    } else {
      SplitLength(Join(fields, sep), sep);
      JoinSeparators(fields, sep);
    }
  }

  /** The order's texts that could hold a comma: the id and the status never do. */
  predicate CommaFree(o: Order)
  {
    ',' !in Show(o.drinkName) && ',' !in Show(o.mesa) && ',' !in o.timestamp && ',' !in o.evento
  }

  /** No value of an order's line holds a comma exactly when its texts hold none. */
  lemma FieldsCommaFree(o: Order)
    ensures CommaFree(o) <==> forall i :: 0 <= i < 6 ==> ',' !in Fields(o)[i]
  {
    var f := Fields(o);
    assert forall i :: 0 <= i < |f[0]| ==> IsDigit(f[0][i]);
    assert ',' !in f[0];
    assert ',' !in f[4];
    assert f[1] == Show(o.drinkName) && f[2] == Show(o.mesa) && f[3] == o.timestamp && f[5] == o.evento;
    if CommaFree(o) {
      forall i | 0 <= i < 6 ensures ',' !in f[i] {
        if i == 0 || i == 4 {
        } else {
          assert i == 1 || i == 2 || i == 3 || i == 5;
        }
      }
    }
  }

  /**
   * A line of the export has exactly the six columns of the header if and
   * only if the drink, table, timestamp and event hold no comma: nothing is quoted.
   */
  lemma RowColumnCount(o: Order)
    ensures |Split(Row(o), ',')| == 6 <==> CommaFree(o)
  {
    SplitLength(Row(o), ',');
    SepCountZero(Fields(o), ',');
    FieldsCommaFree(o);
  }

  /** A line whose texts hold no comma gives back the order's id, status and texts, column by column. */
  lemma RowValues(o: Order)
    requires CommaFree(o)
    ensures var cols := Split(Row(o), ',');
      && |cols| == 6
      && (forall i :: 0 <= i < |cols[0]| ==> IsDigit(cols[0][i]))
      && ParseNat(cols[0]) == o.id && ParseStatus(Some(cols[4])) == Some(o.status)
      && cols[1] == Show(o.drinkName) && cols[2] == Show(o.mesa)
      && cols[3] == o.timestamp && cols[5] == o.evento
  {
    FieldsCommaFree(o);
    SplitJoin(Fields(o), ',');
    ParseNatToString(o.id);
  }

  /** The header splits into the six column names, one per value of an order's line. */
  lemma HeaderColumns()
    ensures Split(Header, ',') == Columns && |Columns| == 6
  {
    assert forall i :: 0 <= i < |Columns| ==> ',' !in Columns[i];
    SplitJoin(Columns, ',');
  }
}
