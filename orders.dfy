/**
 * The order record shared by the API server, the monitor and the report
 * script, the four order statuses, and the projections of an order list
 * that the counters count.
 */
module Orders {
  import opened Wrappers
  import opened Counting

  /** `pendente`, `preparando`, `pronto`, `entregue`. */
  datatype Status = Pendente | Preparando | Pronto | Entregue

  /** An order as stored in the orders file. */
  datatype Order = Order(
    id: nat,                       // milliseconds since the epoch at creation
    drinkId: Option<string>,
    drinkName: Option<string>,
    mesa: Option<string>,          // table or client; None when the client sent none
    timestamp: string,
    evento: string,
    status: Status,
    statusUpdated: Option<string>) // set by the first status update

  /** The JSON fields of a submitted order; None means the client omitted the field. */
  datatype OrderRequest = OrderRequest(
    drinkId: Option<string>,
    drinkName: Option<string>,
    mesa: Option<string>,
    timestamp: Option<string>,
    evento: Option<string>)

  /** A reading of the clock: `int(time.time() * 1000)`, `datetime.now().isoformat()` and today's `%Y-%m-%d`. */
  datatype Clock = Clock(millis: nat, now: string, today: string)

  /** The wire name of a status. */
  function StatusName(st: Status): string
  {
    match st
    case Pendente => "pendente"
    case Preparando => "preparando"
    case Pronto => "pronto"
    case Entregue => "entregue"
  }

  /** The status named by a request value; None for a missing value or any other string. */
  function ParseStatus(value: Option<string>): (st: Option<Status>)
    ensures st.Some? ==> value == Some(StatusName(st.value))
    ensures forall s :: value == Some(StatusName(s)) ==> st == Some(s)
  {
    match value
    case Some("pendente") => Some(Pendente)
    case Some("preparando") => Some(Preparando)
    case Some("pronto") => Some(Pronto)
    case Some("entregue") => Some(Entregue)
    case _ => None
  }

  /** The order a submission creates: status `pendente`, defaults for an omitted timestamp and event. */
  function NewOrder(req: OrderRequest, clock: Clock): (o: Order)
    ensures o.id == clock.millis && o.status == Pendente && o.statusUpdated == None
    ensures o.drinkId == req.drinkId && o.drinkName == req.drinkName && o.mesa == req.mesa
    ensures o.timestamp == if req.timestamp.Some? then req.timestamp.value else clock.now
    ensures o.evento == if req.evento.Some? then req.evento.value else "N/A"
  {
    Order(clock.millis, req.drinkId, req.drinkName, req.mesa,
          req.timestamp.GetOr(clock.now), req.evento.GetOr("N/A"), Pendente, None)
  }

  // ---- Hour of a timestamp (`datetime.fromisoformat(ts).hour`) ----

  predicate IsDigit(c: char)
  {
    '0' <= c <= '9'
  }

  function DigitValue(c: char): nat
    requires IsDigit(c)
  {
    (c as int) - ('0' as int)
  }

  /** `YYYY-MM-DD`: four digits, dash, two digits, dash, two digits. */
  predicate IsDateLayout(d: string)
  {
    && |d| == 10 && d[4] == '-' && d[7] == '-'
    && forall i :: 0 <= i < 10 && i != 4 && i != 7 ==> IsDigit(d[i])
  }

  /**
   * The hour of an ISO timestamp `YYYY-MM-DD[?HH...]`: 0 for a bare date,
   * the two digits after the separator otherwise; None where parsing raises.
   */
  function HourOf(ts: string): (h: Option<nat>)
    ensures h.Some? ==> h.value < 24
    ensures h.Some? ==> |ts| >= 10 && IsDateLayout(ts[..10])
  {
    if |ts| < 10 || !IsDateLayout(ts[..10]) then None
    else if |ts| == 10 then Some(0)
    else if |ts| >= 13 && IsDigit(ts[11]) && IsDigit(ts[12])
         && DigitValue(ts[11]) * 10 + DigitValue(ts[12]) < 24
    then Some(DigitValue(ts[11]) * 10 + DigitValue(ts[12]))
    else None
  }

  /** A timestamp written by the server or a client in the layout `YYYY-MM-DDTHH...` has the written hour. */
  lemma HourOfLayout(date: string, hh: string, rest: string)
    requires IsDateLayout(date) && |hh| == 2 && IsDigit(hh[0]) && IsDigit(hh[1])
    requires DigitValue(hh[0]) * 10 + DigitValue(hh[1]) < 24
    ensures HourOf(date + "T" + hh + rest) == Some(DigitValue(hh[0]) * 10 + DigitValue(hh[1]))
  {
    var ts := date + "T" + hh + rest;
    assert ts[..10] == date;
    assert ts[11] == hh[0] && ts[12] == hh[1];
  }

  // ---- Projections of an order list ----

  /** `[p['drink_name'] for p in pedidos]` */
  function DrinkNames(orders: seq<Order>): (names: seq<Option<string>>)
    ensures |names| == |orders| && forall i :: 0 <= i < |orders| ==> names[i] == orders[i].drinkName
  {
    seq(|orders|, i requires 0 <= i < |orders| => orders[i].drinkName)
  }

  /** `[p['mesa'] for p in pedidos]` */
  function Tables(orders: seq<Order>): (tables: seq<Option<string>>)
    ensures |tables| == |orders| && forall i :: 0 <= i < |orders| ==> tables[i] == orders[i].mesa
  {
    seq(|orders|, i requires 0 <= i < |orders| => orders[i].mesa)
  }

  /** `[p['status'] for p in pedidos]`, as wire names. */
  function StatusNames(orders: seq<Order>): (names: seq<string>)
    ensures |names| == |orders| && forall i :: 0 <= i < |orders| ==> names[i] == StatusName(orders[i].status)
  {
    seq(|orders|, i requires 0 <= i < |orders| => StatusName(orders[i].status))
  }

  /** A table value Python treats as true: present and not the empty string. */
  predicate IsTruthy(mesa: Option<string>)
  {
    mesa.Some? && mesa.value != ""
  }

  /** `[p['mesa'] for p in pedidos if p.get('mesa')]` */
  function TruthyTables(orders: seq<Order>): (r: seq<string>)
    ensures |r| <= |orders| && forall i :: 0 <= i < |r| ==> r[i] != ""
  {
    if orders == [] then []
    else
      var last := orders[|orders| - 1];
      TruthyTables(orders[..|orders| - 1]) + (if IsTruthy(last.mesa) then [last.mesa.value] else [])
  }

  /** The tables counted by the rankings are non-empty, each counted once per order at that table. */
  lemma {:induction false} TruthyTablesCount(orders: seq<Order>, m: string)
    ensures Count(TruthyTables(orders), m) == if m == "" then 0 else Count(Tables(orders), Some(m))
  {
    if orders != [] {
      var prefix, last := orders[..|orders| - 1], orders[|orders| - 1];
      TruthyTablesCount(prefix, m);
      assert Tables(orders) == Tables(prefix) + [last.mesa];
      CountAppend(Tables(prefix), last.mesa, Some(m));
      if IsTruthy(last.mesa) {
        assert TruthyTables(orders) == TruthyTables(prefix) + [last.mesa.value];
        CountAppend(TruthyTables(prefix), last.mesa.value, m);
      } else {
        assert TruthyTables(orders) == TruthyTables(prefix);
      }
    }
  }

  /** No table is counted exactly when no order has a non-empty table. */
  lemma {:induction false} TruthyTablesEmpty(orders: seq<Order>)
    ensures TruthyTables(orders) == [] <==> forall i :: 0 <= i < |orders| ==> !IsTruthy(orders[i].mesa)
  {
    if orders != [] {
      var prefix := orders[..|orders| - 1];
      TruthyTablesEmpty(prefix);
      assert forall i :: 0 <= i < |prefix| ==> prefix[i] == orders[i];
    }
  }

  /** The hours of all orders, in order; None when some timestamp does not parse. */
  function HoursOf(orders: seq<Order>): (hours: Option<seq<nat>>)
    ensures hours.Some? ==> |hours.value| == |orders|
    ensures hours.Some? ==> forall i :: 0 <= i < |orders| ==> HourOf(orders[i].timestamp) == Some(hours.value[i])
    ensures hours.None? ==> exists i :: 0 <= i < |orders| && HourOf(orders[i].timestamp).None?
  {
    if orders == [] then Some([])
    else
      var prefix := orders[..|orders| - 1];
      match (HoursOf(prefix), HourOf(orders[|orders| - 1].timestamp))
      case (Some(hs), Some(h)) => Some(hs + [h])
      case (None, _) =>
        var i :| 0 <= i < |prefix| && HourOf(prefix[i].timestamp).None?;
        assert orders[i] == prefix[i];
        None
      case (_, None) => None
  }

  /** `datetime.fromisoformat` raised on some order's timestamp. */
  datatype TimestampError = BadTimestamp

  /** Number of orders with status `pendente`: zero exactly when no order is pending. */
  function PendingCount(orders: seq<Order>): (n: nat)
    ensures n <= |orders|
    ensures n == 0 <==> forall i :: 0 <= i < |orders| ==> orders[i].status != Pendente
  {
    Count(StatusNames(orders), "pendente")
  }

  /** Number of orders whose timestamp falls in hour `h`. */
  function OrdersInHour(orders: seq<Order>, h: nat): nat
  {
    if orders == [] then 0
    else OrdersInHour(orders[..|orders| - 1], h) + (if HourOf(orders[|orders| - 1].timestamp) == Some(h) then 1 else 0)
  }

  /** Counting the parsed hours counts the orders in each hour. */
  lemma {:induction false} HoursCount(orders: seq<Order>, h: nat)
    requires HoursOf(orders).Some?
    ensures Count(HoursOf(orders).value, h) == OrdersInHour(orders, h)
  {
    if orders != [] {
      var prefix, last := orders[..|orders| - 1], orders[|orders| - 1];
      assert HoursOf(prefix).Some?;
      HoursCount(prefix, h);
      var hs := HoursOf(orders).value;
      assert hs == HoursOf(prefix).value + [hs[|hs| - 1]];
      CountAppend(HoursOf(prefix).value, hs[|hs| - 1], h);
    }
  }

  /** Every parsed hour is a valid hour of the day. */
  lemma HoursValid(orders: seq<Order>)
    requires HoursOf(orders).Some?
    ensures forall h :: h in HoursOf(orders).value ==> h < 24
  {
    var hs := HoursOf(orders).value;
    forall h | h in hs ensures h < 24 {
      var j :| 0 <= j < |hs| && hs[j] == h;
      assert HourOf(orders[j].timestamp) == Some(h);
    }
  }
}
