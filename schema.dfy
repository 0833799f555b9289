/** The tables of the library database and the invariants the schema keeps.
    Each Django model is one table: a map from primary key to row. The
    many-to-many Book.authors relation is a set of (book id, author id) pairs.
    Timestamps are abstract integers supplied by the caller. */
module Schema {

  datatype Option<T> = None | Some(value: T)

  /** One row of the CustomUser table. Name parts are nullable columns. */
  datatype User = User(
    id: nat,
    firstName: Option<string>,
    middleName: Option<string>,
    lastName: Option<string>,
    email: string,
    password: string,
    createdAt: int,
    updatedAt: int,
    role: int,
    isActive: bool)

  /** One row of the Author table. */
  datatype Author = Author(id: nat, name: string, surname: string, patronymic: string)

  /** One row of the Book table; its authors live in the link set. */
  datatype Book = Book(id: nat, name: string, description: string, count: int)

  /** One row of the Order table: a loan of `book` to `user`. */
  datatype Order = Order(
    id: nat,
    user: nat,
    book: nat,
    createdAt: int,
    endAt: Option<int>,
    platedEndAt: int)

  ghost predicate UsersKeyed(users: map<nat, User>) {
    forall id :: id in users ==> users[id].id == id
  }

  ghost predicate AuthorsKeyed(authors: map<nat, Author>) {
    forall id :: id in authors ==> authors[id].id == id
  }

  ghost predicate BooksKeyed(books: map<nat, Book>) {
    forall id :: id in books ==> books[id].id == id
  }

  ghost predicate OrdersKeyed(orders: map<nat, Order>) {
    forall id :: id in orders ==> orders[id].id == id
  }

  /** The unique constraint on CustomUser.email. */
  ghost predicate EmailsUnique(users: map<nat, User>) {
    forall i, j :: i in users && j in users && users[i].email == users[j].email ==> i == j
  }

  /** Every key of `m` was handed out by the id supply before `next`. */
  ghost predicate IdsBelow<T>(m: map<nat, T>, next: nat) {
    forall id :: id in m ==> id < next
  }

  /** The ids of the authors linked to book `b`. */
  function AuthorsOf(links: set<(nat, nat)>, b: nat): (r: set<nat>)
    ensures forall a :: a in r <==> (b, a) in links
  {
    set p | p in links && p.0 == b :: p.1
  }

  /** The on_delete=CASCADE of Order.user: the orders left after user `u` is deleted. */
  function OrdersWithoutUser(orders: map<nat, Order>, u: nat): (r: map<nat, Order>)
    ensures forall id :: id in r <==> id in orders && orders[id].user != u
    ensures forall id :: id in r ==> r[id] == orders[id]
  {
    map id | id in orders && orders[id].user != u :: orders[id]
  }

  /** The on_delete=CASCADE of Order.book: the orders left after book `b` is deleted. */
  function OrdersWithoutBook(orders: map<nat, Order>, b: nat): (r: map<nat, Order>)
    ensures forall id :: id in r <==> id in orders && orders[id].book != b
    ensures forall id :: id in r ==> r[id] == orders[id]
  {
    map id | id in orders && orders[id].book != b :: orders[id]
  }

  /** The database: one field per table, the link table and the id supply. */
  class Database {
    var users: map<nat, User>
    var authors: map<nat, Author>
    var books: map<nat, Book>
    var bookAuthors: set<(nat, nat)>
    var orders: map<nat, Order>
    var nextId: nat

    ghost predicate Valid()
      reads this
    {
      && UsersKeyed(users) && AuthorsKeyed(authors) && BooksKeyed(books) && OrdersKeyed(orders)
      && IdsBelow(users, nextId) && IdsBelow(authors, nextId)
      && IdsBelow(books, nextId) && IdsBelow(orders, nextId)
      && EmailsUnique(users)
      && (forall p :: p in bookAuthors ==> p.0 in books && p.1 in authors)
      && (forall id :: id in orders ==> orders[id].user in users && orders[id].book in books)
    }

    constructor ()
      ensures Valid()
      ensures users == map[] && authors == map[] && books == map[]
      ensures bookAuthors == {} && orders == map[]
    {
      users, authors, books := map[], map[], map[];
      bookAuthors, orders := {}, map[];
      nextId := 0;
    }
  }
}
