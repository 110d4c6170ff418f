/** The in-memory order store (`src/orders/store.ts`). */
module Orders {
  import opened Basics

  datatype Key = Key(operator: string, bapId: string, bapUri: string, transactionId: string)

  datatype Order = Order(id: string, content: string)

  datatype Stored = Stored(key: Key, order: Order)

  datatype OrderTables = OrderTables(orders: map<string, Stored>, byTransaction: map<Key, string>)

  datatype SaveOutcome = Saved | OrderIdCollision | OrderAlreadyConfirmed

  /** `save`: the id is checked before the transaction. */
  function Save(st: OrderTables, key: Key, order: Order): (OrderTables, SaveOutcome) {
    if order.id in st.orders then (st, OrderIdCollision)
    else if key in st.byTransaction then (st, OrderAlreadyConfirmed)
    else (OrderTables(st.orders[order.id := Stored(key, order)], st.byTransaction[key := order.id]), Saved)
  }

  /** `findByTransaction`. */
  function Find(st: OrderTables, key: Key): Option<Order> {
    if key in st.byTransaction && st.byTransaction[key] in st.orders then Some(st.orders[st.byTransaction[key]].order) else None
  }

  /** Each index points into the other: one order per transaction, one transaction per order. */
  predicate Indexed(st: OrderTables) {
    && (forall k | k in st.byTransaction :: st.byTransaction[k] in st.orders && st.orders[st.byTransaction[k]].key == k)
    && (forall id | id in st.orders ::
          st.orders[id].order.id == id && st.orders[id].key in st.byTransaction && st.byTransaction[st.orders[id].key] == id)
  }

  lemma SaveKeepsIndexed(st: OrderTables, key: Key, order: Order)
    requires Indexed(st)
    ensures Indexed(Save(st, key, order).0)
    ensures Save(st, key, order).1.Saved? <==> order.id !in st.orders && Find(st, key).None?
    ensures Save(st, key, order).1.OrderIdCollision? <==> order.id in st.orders
    ensures Save(st, key, order).1.Saved? ==> Find(Save(st, key, order).0, key) == Some(order)
    ensures forall k | k != key || !Save(st, key, order).1.Saved? :: Find(Save(st, key, order).0, k) == Find(st, k)
    ensures forall k | Find(st, k).Some? :: Find(Save(st, key, order).0, k) == Find(st, k)
  {
  }

  class InMemoryOrderStore {
    var orders: map<string, Stored>
    var byTransaction: map<Key, string>

    constructor ()
      ensures State() == OrderTables(map[], map[]) && Indexed(State())
    {
      orders, byTransaction := map[], map[];
    }

    function State(): OrderTables
      reads this
    {
      OrderTables(orders, byTransaction)
    }

    method SaveOrder(key: Key, order: Order) returns (outcome: SaveOutcome)
      requires Indexed(State())
      modifies this
      ensures (State(), outcome) == Save(old(State()), key, order) && Indexed(State())
      ensures outcome.Saved? <==> order.id !in old(orders) && Find(old(State()), key).None?
      ensures outcome.OrderIdCollision? <==> order.id in old(orders)
      ensures outcome.Saved? ==> Find(State(), key) == Some(order)
      ensures !outcome.Saved? ==> State() == old(State())
      ensures forall k | Find(old(State()), k).Some? :: Find(State(), k) == Find(old(State()), k)
    {
      SaveKeepsIndexed(State(), key, order);
      if order.id in orders {
        return OrderIdCollision;
      }
      if key in byTransaction {
        return OrderAlreadyConfirmed;
      }
      orders := orders[order.id := Stored(key, order)];
      byTransaction := byTransaction[key := order.id];
      outcome := Saved;
    }

    /** `get`: an order is visible only to the party that bought it. */
    method Get(key: Key, orderId: string) returns (found: Option<Order>)
      requires Indexed(State())
      ensures found.Some? <==> Find(State(), key).Some? && Find(State(), key).value.id == orderId
      ensures found.Some? ==> found == Find(State(), key)
    {
      if orderId !in orders || orders[orderId].key != key {
        return None;
      }
      found := Some(orders[orderId].order);
    }
  }
}
