/**
 * The API server's order store: the orders file with its four request
 * handlers (submit, list, status update, reset) and the statistics snapshot
 * that every mutation recomputes in full.
 */
module Store {
  import opened Wrappers
  import opened Sorting
  import opened Counting
  import opened Orders

  /**
   * A request body parsed as JSON: an object with the fields a handler
   * reads, or a JSON value that is not an object. A body that is not JSON
   * gets 400 from the submit and status handlers and Flask's own error from
   * reset; it is not modelled.
   */
  datatype Body<T> = NotObject | Object(fields: T)

  datatype BadReason = MalformedBody | InvalidStatus | WrongConfirmation

  /** What a handler answers, with its HTTP status code. */
  datatype Reply =
    | Created(orderId: nat)      // 201 {success, pedido_id}
    | Updated(order: Order)      // 200 {success, pedido}
    | ResetDone                  // 200 {success, message}
    | BadRequest(reason: BadReason)  // 400 {error}
    | NotFound                   // 404 {error}
    | ServerError                // 500: an exception the handler does not catch

  // ---- Listing ----

  /** Python's `a <= b` on strings: code point by code point, a proper prefix first. */
  predicate StrLe(a: string, b: string)
  {
    a == [] || (b != [] && (a[0] < b[0] || (a[0] == b[0] && StrLe(a[1..], b[1..]))))
  }

  lemma {:induction false} StrLeTotal(a: string, b: string)
    ensures StrLe(a, b) || StrLe(b, a)
  {
    if a != [] && b != [] && a[0] == b[0] {
      StrLeTotal(a[1..], b[1..]);
    }
  }

  lemma {:induction false} StrLeTransitive(a: string, b: string, c: string)
    requires StrLe(a, b) && StrLe(b, c)
    ensures StrLe(a, c)
  {
    if a != [] && a[0] == b[0] && b[0] == c[0] {
      StrLeTransitive(a[1..], b[1..], c[1..]);
    }
  }

  /** Two timestamps that compare equal both ways are the same string. */
  lemma {:induction false} StrLeAntisymmetric(a: string, b: string)
    requires StrLe(a, b) && StrLe(b, a)
    ensures a == b
  {
    if a != [] {
      StrLeAntisymmetric(a[1..], b[1..]);
      assert a == [a[0]] + a[1..] && b == [b[0]] + b[1..];
    }
  }

  /** The sort key of `listar_pedidos`: `x.get('timestamp', '')`. */
  predicate ByTimestamp(a: Order, b: Order)
  {
    StrLe(a.timestamp, b.timestamp)
  }

  lemma ByTimestampIsPreorder()
    ensures TotalPreorder(ByTimestamp)
  {
    forall a: Order, b: Order ensures ByTimestamp(a, b) || ByTimestamp(b, a) {
      StrLeTotal(a.timestamp, b.timestamp);
    }
    forall a: Order, b: Order, c: Order | ByTimestamp(a, b) && ByTimestamp(b, c)
      ensures ByTimestamp(a, c)
    {
      StrLeTransitive(a.timestamp, b.timestamp, c.timestamp);
    }
  }

  /** `if status_filter:` - an absent or empty filter selects every order. */
  predicate Selects(filter: Option<string>, o: Order)
  {
    filter.None? || filter.value == "" || StatusName(o.status) == filter.value
  }

  /** `[p for p in pedidos if p.get('status') == name]` */
  function WithStatus(orders: seq<Order>, name: string): (r: seq<Order>)
    ensures forall o :: multiset(r)[o] == if StatusName(o.status) == name then multiset(orders)[o] else 0
  {
    if orders == [] then []
    else
      assert orders == [orders[0]] + orders[1..];
      (if StatusName(orders[0].status) == name then [orders[0]] else []) + WithStatus(orders[1..], name)
  }

  /** The orders `listar_pedidos` returns, before sorting. */
  function Selected(orders: seq<Order>, filter: Option<string>): (r: seq<Order>)
    ensures forall o :: multiset(r)[o] == if Selects(filter, o) then multiset(orders)[o] else 0
  {
    if filter.None? || filter.value == "" then orders else WithStatus(orders, filter.value)
  }

  /** A filter that names no status selects nothing. */
  lemma UnknownFilterSelectsNothing(orders: seq<Order>, name: string)
    requires name != "" && ParseStatus(Some(name)).None?
    ensures Selected(orders, Some(name)) == []
  {
    var r := Selected(orders, Some(name));
    forall o: Order ensures multiset(r)[o] == 0 {
      assert ParseStatus(Some(StatusName(o.status))) == Some(o.status);
    }
    assert multiset(r) == multiset{};
  }

  // ---- Statistics ----

  /** `len([p for p in pedidos if p['timestamp'].startswith(today)])` */
  function TodayCount(orders: seq<Order>, today: string): (n: nat)
    ensures n <= |orders|
  {
    if orders == [] then 0
    else TodayCount(orders[1..], today) + (if today <= orders[0].timestamp then 1 else 0)
  }

  /** The tables of the orders not yet delivered: never more than there are orders. */
  function OpenTables(orders: seq<Order>): (r: set<Option<string>>)
    ensures |r| <= |orders|
  {
    if orders == [] then {}
    else
      var last := orders[|orders| - 1];
      OpenTables(orders[..|orders| - 1]) + (if last.status != Entregue then {last.mesa} else {})
  }

  /** The statistics snapshot (`estatisticas.json`). */
  datatype Stats = Stats(
    totalOrders: nat,
    ordersToday: nat,
    popularDrinks: seq<(Option<string>, nat)>,   // an insertion-ordered dict
    activeTables: set<Option<string>>,
    updatedAt: string)

  /** `st` is the snapshot of `orders` taken at `clock`. */
  ghost predicate StatsFor(st: Stats, orders: seq<Order>, clock: Clock)
  {
    && st.totalOrders == |orders|
    && st.ordersToday == TodayCount(orders, clock.today)
    && st.popularDrinks == Tally(DrinkNames(orders))
    && st.activeTables == OpenTables(orders)
    && st.updatedAt == clock.now
  }

  /**
   * `update_stats`: one pass over the orders, counting drinks into a dict
   * and collecting the tables of orders not yet delivered into a set.
   */
  method ComputeStats(orders: seq<Order>, clock: Clock) returns (st: Stats)
    ensures StatsFor(st, orders, clock)
    ensures IsCounterOf(st.popularDrinks, DrinkNames(orders))
    ensures Total(st.popularDrinks) == st.totalOrders
    ensures st.ordersToday <= st.totalOrders
  {
    var drinks: seq<(Option<string>, nat)> := [];
    var tables: set<Option<string>> := {};
    var i := 0;
    while i < |orders|
      invariant 0 <= i <= |orders|
      invariant drinks == Tally(DrinkNames(orders[..i]))
      invariant tables == OpenTables(orders[..i])
    {
      var o := orders[i];
      TallyStep(orders, i);
      OpenTablesStep(orders, i);
      drinks := Bump(drinks, o.drinkName);
      if o.status != Entregue {
        tables := tables + {o.mesa};
      }
      i := i + 1;
    }
    assert orders[..i] == orders;
    st := Stats(|orders|, TodayCount(orders, clock.today), drinks, tables, clock.now);
    StatsFacts(st, orders, clock);
  }

  /** Counting one more order bumps its drink. */
  lemma TallyStep(orders: seq<Order>, i: nat)
    requires i < |orders|
    ensures Tally(DrinkNames(orders[..i + 1])) == Bump(Tally(DrinkNames(orders[..i])), orders[i].drinkName)
  {
    var s := DrinkNames(orders[..i + 1]);
    assert s[..|s| - 1] == DrinkNames(orders[..i]);
  }

  /** Taking one more order adds its table when it is not delivered. */
  lemma OpenTablesStep(orders: seq<Order>, i: nat)
    requires i < |orders|
    ensures OpenTables(orders[..i + 1]) ==
            OpenTables(orders[..i]) + (if orders[i].status != Entregue then {orders[i].mesa} else {})
  {
    assert orders[..i + 1][..i] == orders[..i];
  }

  /** Drink counts are exact and add up to the number of orders; today's orders are among them. */
  lemma StatsFacts(st: Stats, orders: seq<Order>, clock: Clock)
    requires StatsFor(st, orders, clock)
    ensures IsCounterOf(st.popularDrinks, DrinkNames(orders))
    ensures Total(st.popularDrinks) == st.totalOrders
    ensures st.ordersToday <= st.totalOrders
  {
    TallyIsCounter(DrinkNames(orders));
    TallyTotal(DrinkNames(orders));
  }

  /** A table is active exactly when some order at it is not delivered. */
  lemma {:induction false} ActiveTableHasOpenOrder(orders: seq<Order>, t: Option<string>)
    ensures t in OpenTables(orders) <==> exists i :: 0 <= i < |orders| && orders[i].mesa == t && orders[i].status != Entregue
  {
    if orders != [] {
      var prefix := orders[..|orders| - 1];
      ActiveTableHasOpenOrder(prefix, t);
      if exists i :: 0 <= i < |orders| && orders[i].mesa == t && orders[i].status != Entregue {
        var i :| 0 <= i < |orders| && orders[i].mesa == t && orders[i].status != Entregue;
        if i < |prefix| {
          assert prefix[i] == orders[i];
        }
      }
      if exists i :: 0 <= i < |prefix| && prefix[i].mesa == t && prefix[i].status != Entregue {
        var i :| 0 <= i < |prefix| && prefix[i].mesa == t && prefix[i].status != Entregue;
        assert orders[i] == prefix[i];
      }
    }
  }

  /** The snapshot of an empty collection counts nothing. */
  lemma EmptyStats(st: Stats, clock: Clock)
    requires StatsFor(st, [], clock)
    ensures st.totalOrders == 0 && st.ordersToday == 0
    ensures st.popularDrinks == [] && st.activeTables == {}
  {
  }

  /** Index of the first order with the given id. */
  function FirstWithId(orders: seq<Order>, id: nat): (k: Option<nat>)
    ensures k.Some? ==> k.value < |orders| && orders[k.value].id == id
    ensures k.Some? ==> forall j :: 0 <= j < k.value ==> orders[j].id != id
    ensures k.None? ==> forall j :: 0 <= j < |orders| ==> orders[j].id != id
  {
    if orders == [] then None
    else if orders[0].id == id then Some(0)
    else match FirstWithId(orders[1..], id)
      case None => None
      case Some(j) => Some(j + 1)
  }

  /** The orders file and the statistics file, as the server sees them. */
  class OrderStore {
    var orders: seq<Order>
    var stats: Stats

    /** Server start-up: the existing orders and a first `update_stats()`. */
    constructor (initial: seq<Order>, clock: Clock)
      ensures orders == initial && StatsFor(stats, orders, clock)
    {
      orders := initial;
      var st := ComputeStats(initial, clock);
      stats := st;
    }

    /** `update_stats()` on the current orders; also `GET /estatisticas`. */
    method UpdateStats(clock: Clock) returns (st: Stats)
      modifies this`stats
      ensures st == stats && StatsFor(stats, orders, clock)
    {
      st := ComputeStats(orders, clock);
      stats := st;
    }

    /** `POST /pedido`: append the new order, save, recompute the statistics. */
    method SubmitOrder(body: Body<OrderRequest>, clock: Clock) returns (reply: Reply)
      modifies this
      ensures body.NotObject? ==> reply == BadRequest(MalformedBody)
      ensures body.NotObject? ==> orders == old(orders) && stats == old(stats)
      ensures body.Object? ==> reply == Created(clock.millis)
      ensures body.Object? ==> orders == old(orders) + [NewOrder(body.fields, clock)]
      ensures body.Object? ==> StatsFor(stats, orders, clock)
    {
      if body.NotObject? {
        return BadRequest(MalformedBody);
      }
      var order := NewOrder(body.fields, clock);
      orders := orders + [order];
      var _ := UpdateStats(clock);
      reply := Created(order.id);
    }

    /**
     * `GET /pedidos?status=...`: the orders the filter selects, latest
     * timestamp first, orders with equal timestamps in file order.
     */
    method ListOrders(filter: Option<string>) returns (listing: seq<Order>)
      ensures forall o :: multiset(listing)[o] == if Selects(filter, o) then multiset(orders)[o] else 0
      ensures SortedDesc(listing, ByTimestamp)
      ensures forall o :: Ties(listing, o, ByTimestamp) == Ties(Selected(orders, filter), o, ByTimestamp)
    {
      var selected := Selected(orders, filter);
      listing := SortDesc(selected, ByTimestamp);
      ByTimestampIsPreorder();
      SortDescSorted(selected, ByTimestamp);
      forall o ensures Ties(listing, o, ByTimestamp) == Ties(selected, o, ByTimestamp) {
        SortDescTies(selected, o, ByTimestamp);
      }
    }

    /**
     * `PUT /pedido/<id>/status`: reject a value outside the four statuses,
     * otherwise set the status and update time of the first order with the
     * id, save and recompute the statistics; 404 when no order has the id.
     */
    method UpdateStatus(id: nat, body: Body<Option<string>>, clock: Clock) returns (reply: Reply)
      modifies this
      ensures body.NotObject? ==> reply == BadRequest(MalformedBody)
      ensures body.Object? && ParseStatus(body.fields).None? ==> reply == BadRequest(InvalidStatus)
      ensures body.Object? && ParseStatus(body.fields).Some? && FirstWithId(old(orders), id).None? ==>
                reply == NotFound
      ensures body.Object? && ParseStatus(body.fields).Some? && FirstWithId(old(orders), id).Some? ==>
                reply.Updated?
      ensures !reply.Updated? ==> orders == old(orders) && stats == old(stats)
      ensures reply.Updated? ==>
                && body.Object? && ParseStatus(body.fields).Some?
                && FirstWithId(old(orders), id).Some?
                && var k := FirstWithId(old(orders), id).value;
                && orders == old(orders)[k := old(orders)[k].(status := ParseStatus(body.fields).value,
                                                             statusUpdated := Some(clock.now))]
                && reply.order == orders[k]
                && StatsFor(stats, orders, clock)
    {
      if body.NotObject? {
        return BadRequest(MalformedBody);
      }
      var status := ParseStatus(body.fields);
      if status.None? {
        return BadRequest(InvalidStatus);
      }
      var i := 0;
      while i < |orders|
        invariant 0 <= i <= |orders|
        invariant orders == old(orders) && stats == old(stats)
        invariant forall j :: 0 <= j < i ==> orders[j].id != id
      {
        if orders[i].id == id {
          orders := orders[i := orders[i].(status := status.value, statusUpdated := Some(clock.now))];
          var _ := UpdateStats(clock);
          return Updated(orders[i]);
        }
        i := i + 1;
      }
      reply := NotFound;
    }

    /** `POST /reset`: with `confirm == 'RESET'` empty the orders and recompute; otherwise 400. */
    method Reset(body: Body<Option<string>>, clock: Clock) returns (reply: Reply)
      modifies this
      ensures body.NotObject? ==> reply == ServerError
      ensures body.Object? && body.fields == Some("RESET") ==> reply == ResetDone
      ensures body.Object? && body.fields == Some("RESET") ==> orders == [] && StatsFor(stats, orders, clock)
      ensures body.Object? && body.fields != Some("RESET") ==> reply == BadRequest(WrongConfirmation)
      ensures reply != ResetDone ==> orders == old(orders) && stats == old(stats)
    {
      if body.NotObject? {
        return ServerError;
      }
      if body.fields != Some("RESET") {
        return BadRequest(WrongConfirmation);
      }
      orders := [];
      var _ := UpdateStats(clock);
      reply := ResetDone;
    }
  }
}
