# Library backend: users, authors, books and loans

This project models the data-access layer of a small Django library backend. There are four
active-record model classes: `CustomUser` (accounts), `Author`, `Book` (with a many-to-many
link to authors) and `Order` (a loan of a book to a user). Here the ORM is an explicit
in-memory database, the class `Schema.Database`. It holds:

- one map per table, from primary key to row (`users`, `authors`, `books`, `orders`);
- the Book–Author link table, as a set of (book id, author id) pairs (`bookAuthors`);
- one fresh-id supply (`nextId`), shared by all tables;
- the invariant `Valid()`. Each row carries its own key. All keys were handed out by the id
  supply. User emails are unique. Every link and every order refers to stored rows (the
  foreign keys).

Each Django app is one module: `Authentication`, `Authors`, `Books`, `Orders`. The static
methods that change the database (`create`, `delete_by_id`) are methods taking the database.
The instance methods (`update`, `add_authors`, `remove_authors`) are methods taking the
database and the instance's primary key. The `update` methods return the in-memory instance
as it is after the call; `add_authors` and `remove_authors` return nothing. Each such
method states its new state in terms of the old state, and keeps `Valid()`. Queries (`get_by_id`, `get_by_email`, `get_all`, `get_not_returned_books`) are
functions over a table. Lookups and deletions take any integer id, as the code does: a
negative or unknown id finds nothing and deletes nothing. The current time is an integer parameter `now`, and `DateTimeField`
values are integers.

Three behaviours of the code shape the model:

- `Order.create` does not check for an outstanding order of the same book. The model has no
  "one outstanding loan per book" invariant: `Orders.Create` adds a new outstanding order
  whatever loans the book already has.
- `CustomUser.update` treats `''` like `None` for the names and the password (truthiness).
  It uses `is not None` only for `role` and `is_active`.
- `Order` has no `to_dict`, so the model has no dict for orders.

## Model

| member | source | states |
|---|---|---|
| `Authentication.DictGet` | library/authentication/models.py:98 | `dict(pairs).get(key, default)`: the default when no pair has the key, otherwise the value of the last pair with that key |
| `Authentication.RoleName` | library/authentication/models.py:97-98 | role 0 is 'visitor', role 1 is 'admin', and every other role is 'unknown' |
| `Authentication.Create` | library/authentication/models.py:47-62 | succeeds exactly when the names fit (absent counts as length 0), the email contains '@' and '.', and no user has that email. On failure nothing is stored. On success exactly one new row is added: the given email, password and names, role visitor, inactive, created and updated at `now`. `get_by_email` then returns it, and emails stay unique |
| `Authentication.InsertKeepsEmailsUnique` | library/authentication/models.py:53-56 | inserting a user whose email is not taken keeps the emails of the table unique |
| `Authentication.ReplaceKeepsEmailsUnique` | library/authentication/models.py:16 | rewriting a row without changing its email keeps the emails unique |
| `Authentication.Accepts` | library/authentication/models.py:49-54 | the three checks of `create`: each name absent or at most 20 characters, '@' and '.' in the email, and no stored user with that email |
| `Authentication.Updated` | library/authentication/models.py:77-91 | field by field: a name or the password is replaced only by a truthy value (None and '' keep the stored one); a role or active flag is replaced by any non-None value (0 and False included); None keeps it. Id, email and created_at never change, and updated_at becomes `now`. Nothing is validated |
| `Authentication.UpdateKeepsFalsyStrings` | library/authentication/models.py:78-85 | with None or '' for every name and the password, only role, active flag and updated_at can change |
| `Authentication.UpdateStoresTruthyStrings` | library/authentication/models.py:78-85 | a non-empty name or password is stored as given, whatever its length |
| `Authentication.UpdateIdempotent` | library/authentication/models.py:77-91 | repeating an update with the same arguments at the same time changes nothing further |
| `Authentication.Update` | library/authentication/models.py:77-91 | the stored row becomes `Updated` of the old row; nothing else changes, and the returned instance equals the stored row |
| `Authentication.ToDict` | library/authentication/models.py:64-75 | the dict of every column except the password; its meaning is stated by `ToDictDeterminesAllButPassword` |
| `Authentication.ToDictDeterminesAllButPassword` | library/authentication/models.py:64-75 | two users have the same dict exactly when they differ at most in their password |
| `Authentication.GetById` | library/authentication/models.py:31-33 | the user with that id, or None exactly when there is none |
| `Authentication.GetByEmail` | library/authentication/models.py:35-37 | None exactly when no user has that email; otherwise the one stored user with that email |
| `Authentication.GetAll` | library/authentication/models.py:93-95 | exactly the stored users |
| `Authentication.DeleteById` | library/authentication/models.py:39-45 | true exactly when the user existed. The user is then gone, and so are all of its orders. Otherwise nothing changes |
| `Authors.FieldsFit` | library/author/models.py:19-21 | what full_clean checks on an author: name, surname and patronymic each at most 20 characters, blank allowed |
| `Authors.ApplyAttrs` | library/author/models.py:121-123 | applying an attrs dict never changes the id |
| `Authors.SetAttrs` | library/author/models.py:121-123 | the setattr loop yields `ApplyAttrs` of the instance and the attrs |
| `Authors.Patched` | library/author/models.py:114-123 | after the update loop exactly the non-None arguments are set; the other fields are unchanged |
| `Authors.RestoreUndoes` | library/author/models.py:128-130 | restoring the snapshot gives back the original instance, whatever was set before |
| `Authors.UpdateOutcome` | library/author/models.py:125-130 | the row left stored keeps its id, and a row that passed validation still passes |
| `Authors.UpdateAllOrNothing` | library/author/models.py:107-130 | if every resulting field is at most 20 characters, exactly the non-None arguments are applied. Otherwise the author is unchanged, including valid fields passed in the same call |
| `Authors.Update` | library/author/models.py:93-132 | the stored row becomes `UpdateOutcome` of the old row; the returned instance equals the stored row in both branches |
| `Authors.Create` | library/author/models.py:55-73 | succeeds exactly when no field exceeds 20 characters (blank accepted). On failure nothing is stored. On success one new row with the three given fields is stored |
| `Authors.ToDict` | library/author/models.py:86-91 | the dict of id, name, surname and patronymic; `ToDictInjective` states that it determines the author |
| `Authors.ToDictInjective` | library/author/models.py:86-91 | the dict (id, name, surname, patronymic) determines the author |
| `Authors.GetById` | library/author/models.py:37-43 | the author with that id, or None exactly when there is none |
| `Authors.GetAll` | library/author/models.py:134-139 | exactly the stored authors |
| `Authors.LinksWithoutAuthor` | library/book/models.py:23 | after the link table cascades, every book's author set loses that author and keeps the rest |
| `Authors.DeleteById` | library/author/models.py:45-53 | true exactly when the author existed. The author is gone and unlinked from every book, and the books stay. Otherwise nothing changes |
| `Books.Fits` | library/book/models.py:20-22 | what full_clean checks on a book: the name at most 128 characters and the count within the IntegerField range -2147483648..2147483647; the description is unbounded |
| `Books.ApplyAttrs` | library/book/models.py:118-120 | applying an attrs dict never changes the id |
| `Books.SetAttrs` | library/book/models.py:118-120 | the setattr loop yields `ApplyAttrs` of the instance and the attrs |
| `Books.Patched` | library/book/models.py:112-120 | every non-None argument is applied ('' and 0 included) and every None argument leaves its field as it was |
| `Books.Update` | library/book/models.py:101-122 | the stored row becomes `Patched` of the old row with no validation; the returned instance equals the stored row |
| `Books.Create` | library/book/models.py:57-79 | succeeds exactly when full_clean passes: the name has at most 128 characters and the count lies in the IntegerField range -2147483648..2147483647. The description is not checked, and the count defaults to 10. On failure neither the books nor the links change. On success the new book's author set is exactly the given authors. Authors must be stored only when validation passes |
| `Books.Linked` | library/book/models.py:124-131 | the book's author set becomes the old set ∪ the given authors; other books are unaffected |
| `Books.Unlinked` | library/book/models.py:133-140 | the book's author set becomes the old set minus the given authors; other books are unaffected |
| `Books.AddLinkedIsNoOp` | library/book/models.py:130 | re-adding already linked authors changes nothing |
| `Books.RemoveUnlinkedIsNoOp` | library/book/models.py:139 | removing unlinked authors changes nothing |
| `Books.RemoveAfterAdd` | library/book/models.py:124-140 | removing the authors just added leaves the old author set minus those authors |
| `Books.AddAuthors` | library/book/models.py:124-131 | the link table becomes `Linked` of the old one |
| `Books.RemoveAuthors` | library/book/models.py:133-140 | the link table becomes `Unlinked` of the old one |
| `Books.ToDict` | library/book/models.py:81-99 | the row's columns, and an authors list holding each id of the current author set exactly once, in no fixed order |
| `Books.GetById` | library/book/models.py:39-45 | the book with that id, or None exactly when there is none |
| `Books.GetAll` | library/book/models.py:142-147 | exactly the stored books |
| `Books.LinksWithoutBook` | library/book/models.py:23 | after the deletion the book has no authors; every other book's author set is unchanged |
| `Books.DeleteById` | library/book/models.py:47-55 | true exactly when the book existed. The book, its links and its orders are gone, and the authors stay. Otherwise nothing changes |
| `Schema.AuthorsOf` | library/book/models.py:23 | an author is in a book's author set exactly when the pair is in the link table |
| `Schema.OrdersWithoutUser` | library/order/models.py:6 | the orders left are exactly those of other users, unchanged |
| `Schema.OrdersWithoutBook` | library/order/models.py:7 | the orders left are exactly those of other books, unchanged |
| `Orders.Updated` | library/order/models.py:44-49 | a non-None argument replaces its field and a None argument keeps it. User, book and created_at never change. The order is outstanding afterwards exactly when it was before and no end_at was given |
| `Orders.ReturnIsFinal` | library/order/models.py:47-48 | once end_at is set, no sequence of update calls makes the order outstanding again, or changes its user, book or creation time |
| `Orders.Update` | library/order/models.py:44-49 | the stored order becomes `Updated` of the old one; the returned instance equals it |
| `Orders.Create` | library/order/models.py:25-35 | always stores one new outstanding order with the given user, book and planned end, created at `now`. It joins the not-returned orders whatever other loans of the book exist. User and book must be stored |
| `Orders.GetById` | library/order/models.py:37-42 | the order with that id, or None exactly when there is none |
| `Orders.GetAll` | library/order/models.py:51-53 | exactly the stored orders |
| `Orders.NotReturned` | library/order/models.py:55-57 | exactly the stored orders whose end_at is None |
| `Orders.ReturnLeavesNotReturned` | library/order/models.py:44-57 | after `update(end_at=t)` the order is no longer among the not-returned ones, and no other order's membership changes |
| `Orders.DeleteById` | library/order/models.py:59-66 | true and the row removed exactly when the order existed; otherwise nothing changes |

## Left out

- Instance methods are modelled on an instance that matches its stored row. Stale in-memory instances are not modelled. Neither is Django's `save()` of an instance whose row was deleted, which re-inserts the row; the methods require the row to exist.
- None for a field of `Author.create`, or for the name, description or count of `Book.create`, is not modelled. The fields allow blank values, so full_clean lets None through. `save()` then raises an IntegrityError on the NOT NULL column, and `except ValidationError` does not catch it, so `create` raises instead of returning None. The model types these parameters as strings and integers, so this input cannot be written.
- `Books.Create`: the model requires every given author to be stored once validation passes. In the code `book.save()` commits the book before `book.authors.add(*authors)` runs. An unsaved or missing author makes `add` raise ValueError or IntegrityError, which `except ValidationError` does not catch. `create` then raises and leaves the new book stored with no authors. The model has no exceptions, so it excludes this input rather than model the partial write.
- `Books.AddAuthors`: the model requires every given author to be stored. In the code an unsaved or missing author makes `add` raise ValueError or IntegrityError to the caller. The model has no exceptions, so it excludes this input.
- Database-level enforcement on save is not modelled: varchar lengths (the email's max_length 100, long names saved by `CustomUser.update` or `Book.update`), the IntegerField range of a count saved by `Book.update`, which does not call full_clean, and the race between the email check and the insert. The model is sequential.
- `CustomUser.create` reads the clock once, so created_at and updated_at are both `now`. The code's two column defaults read it separately.
- Password hashing of the base user class is never called by this code and is not modelled. Neither is its `last_login` column.
- `__str__` and `__repr__` are presentational and are left out.
- The migrations that convert integer epochs to timestamps are left out: `Order`'s times are abstract integers.
- Query results are sets: the order of `get_all` and `get_not_returned_books` is not modelled.
- Ids come from one counter shared by all tables. The database has one sequence per table; only freshness within a table matters here.
