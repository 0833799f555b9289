/** Order: loans of a book to a user. An order is outstanding while its
    `endAt` is None. */
module Orders {
  import opened Schema

  predicate Outstanding(o: Order) {
    o.endAt.None?
  }

  /** The order `update` saves: each argument that is not None replaces its
      field; user, book and creation time never change, and a set `endAt`
      stays set. */
  function Updated(o: Order, platedEndAt: Option<int>, endAt: Option<int>): (r: Order)
    ensures r.id == o.id && r.user == o.user && r.book == o.book && r.createdAt == o.createdAt
    ensures r.platedEndAt == (if platedEndAt.Some? then platedEndAt.value else o.platedEndAt)
    ensures endAt.Some? ==> r.endAt == endAt
    ensures endAt.None? ==> r.endAt == o.endAt
    ensures Outstanding(r) <==> Outstanding(o) && endAt.None?
  {
    var o1 := if platedEndAt.Some? then o.(platedEndAt := platedEndAt.value) else o;
    if endAt.Some? then o1.(endAt := endAt) else o1
  }

  /** A sequence of `update` calls on one order, in order. */
  function UpdatedBy(o: Order, calls: seq<(Option<int>, Option<int>)>): Order
    decreases |calls|
  {
    if calls == [] then o
    else UpdatedBy(Updated(o, calls[0].0, calls[0].1), calls[1..])
  }

  /** Once `endAt` is set, no sequence of `update` calls resets it to None. */
  lemma {:induction false} ReturnIsFinal(o: Order, calls: seq<(Option<int>, Option<int>)>)
    requires !Outstanding(o)
    ensures !Outstanding(UpdatedBy(o, calls))
    ensures UpdatedBy(o, calls).user == o.user && UpdatedBy(o, calls).book == o.book
    ensures UpdatedBy(o, calls).createdAt == o.createdAt
    decreases |calls|
  {
    if calls != [] {
      ReturnIsFinal(Updated(o, calls[0].0, calls[0].1), calls[1..]);
    }
  }

  function GetById(orders: map<nat, Order>, id: int): (r: Option<Order>)
    requires OrdersKeyed(orders)
    ensures r.Some? <==> id in orders
    ensures r.Some? ==> r.value.id == id && r.value in orders.Values
  {
    if id in orders then Some(orders[id]) else None
  }

  function GetAll(orders: map<nat, Order>): (r: set<Order>)
    requires OrdersKeyed(orders)
    ensures forall o :: o in r <==> o.id in orders && orders[o.id] == o
  {
    orders.Values
  }

  /** get_not_returned_books: the stored orders that are outstanding. */
  function NotReturned(orders: map<nat, Order>): (r: set<Order>)
    requires OrdersKeyed(orders)
    ensures forall o :: o in r <==> o.id in orders && orders[o.id] == o && Outstanding(o)
    ensures r <= GetAll(orders)
  {
    set o | o in orders.Values && Outstanding(o)
  }

  /** After `update(end_at=t)` the order is no longer listed as not returned,
      and the listing of every other order is as before. */
  lemma ReturnLeavesNotReturned(orders: map<nat, Order>, id: nat, platedEndAt: Option<int>, t: int)
    requires OrdersKeyed(orders) && id in orders
    ensures var after := orders[id := Updated(orders[id], platedEndAt, Some(t))];
      && OrdersKeyed(after)
      && (forall o :: o in NotReturned(after) ==> o.id != id)
      && (forall o: Order :: o.id != id ==> (o in NotReturned(after) <==> o in NotReturned(orders)))
  {
  }

  /** `create`: save a new outstanding order. No check is made for other
      outstanding orders of the same book. The user and the book must be
      stored rows (the foreign keys). */
  method Create(db: Database, user: nat, book: nat, platedEndAt: int, now: int) returns (order: Order)
    requires db.Valid()
    requires user in db.users && book in db.books
    modifies db`orders, db`nextId
    ensures db.Valid()
    ensures order.id !in old(db.orders) && db.orders == old(db.orders)[order.id := order]
    ensures order.user == user && order.book == book && order.platedEndAt == platedEndAt
    ensures order.endAt == None && order.createdAt == now
    ensures NotReturned(db.orders) == NotReturned(old(db.orders)) + {order}
  {
    order := Order(db.nextId, user, book, now, None, platedEndAt);
    db.orders := db.orders[order.id := order];
    db.nextId := db.nextId + 1;
  }

  /** `update` on the instance with primary key `id`. Returns the instance as
      it is afterwards. */
  method Update(db: Database, id: nat, platedEndAt: Option<int>, endAt: Option<int>) returns (self: Order)
    requires db.Valid() && id in db.orders
    modifies db`orders
    ensures db.Valid()
    ensures db.orders == old(db.orders)[id := Updated(old(db.orders[id]), platedEndAt, endAt)]
    ensures self == db.orders[id]
  {
    self := db.orders[id];
    if platedEndAt.Some? {
      self := self.(platedEndAt := platedEndAt.value);
    }
    if endAt.Some? {
      self := self.(endAt := endAt);
    }
    db.orders := db.orders[id := self];
  }

  /** `delete_by_id`: true and the row removed exactly when it existed. */
  method DeleteById(db: Database, id: int) returns (deleted: bool)
    requires db.Valid()
    modifies db`orders
    ensures db.Valid()
    ensures deleted <==> id in old(db.orders)
    ensures db.orders == old(db.orders) - {id}
  {
    if id in db.orders {
      db.orders := db.orders - {id};
      deleted := true;
    } else {
      deleted := false;
    }
  }
}
