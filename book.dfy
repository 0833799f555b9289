/** Book: the book table, its many-to-many link to authors, validated
    creation, the unvalidated update, and deletion with its cascades. */
module Books {
  import opened Schema

  const NameMaxLength: nat := 128
  const DefaultCount: int := 10

  /** The range Django's database backends give an IntegerField; full_clean
      runs it as a pair of min/max validators. */
  const IntegerFieldMin: int := -2147483648
  const IntegerFieldMax: int := 2147483647

  /** full_clean on a book: the name within max_length and the count within
      the IntegerField range; the description is an unbounded TextField. */
  predicate Fits(name: string, count: int) {
    |name| <= NameMaxLength && IntegerFieldMin <= count <= IntegerFieldMax
  }

  /** One entry of the attrs dict of `update`: an attribute and its value,
      None meaning "not given". */
  datatype Attr = NameAttr(name: Option<string>) | DescriptionAttr(description: Option<string>) | CountAttr(count: Option<int>)

  predicate Given(attr: Attr) {
    match attr
    case NameAttr(v) => v.Some?
    case DescriptionAttr(v) => v.Some?
    case CountAttr(v) => v.Some?
  }

  function SetAttr(b: Book, attr: Attr): (r: Book)
    requires Given(attr)
    ensures r.id == b.id
  {
    match attr
    case NameAttr(v) => b.(name := v.value)
    case DescriptionAttr(v) => b.(description := v.value)
    case CountAttr(v) => b.(count := v.value)
  }

  /** The effect of `for attr, value in attrs.items(): if value is not None: setattr(...)`. */
  function ApplyAttrs(b: Book, attrs: seq<Attr>): (r: Book)
    ensures r.id == b.id
    decreases |attrs|
  {
    if attrs == [] then b
    else
      var last := attrs[|attrs| - 1];
      var c := ApplyAttrs(b, attrs[..|attrs| - 1]);
      if Given(last) then SetAttr(c, last) else c
  }

  /** The setattr loop, on the in-memory instance. */
  method SetAttrs(self: Book, attrs: seq<Attr>) returns (r: Book)
    ensures r == ApplyAttrs(self, attrs)
  {
    r := self;
    var i := 0;
    while i < |attrs|
      invariant 0 <= i <= |attrs|
      invariant r == ApplyAttrs(self, attrs[..i])
    {
      if Given(attrs[i]) {
        r := SetAttr(r, attrs[i]);
      }
      assert attrs[..i + 1][..i] == attrs[..i];
      i := i + 1;
    }
    assert attrs[..i] == attrs;
  }

  /** The row `update` saves: every argument that is not None is applied,
      including '' and 0; no validation takes place. */
  function Patched(b: Book, name: Option<string>, description: Option<string>, count: Option<int>): (r: Book)
    ensures r.id == b.id
    ensures r.name == (if name.Some? then name.value else b.name)
    ensures r.description == (if description.Some? then description.value else b.description)
    ensures r.count == (if count.Some? then count.value else b.count)
  {
    var attrs := [NameAttr(name), DescriptionAttr(description), CountAttr(count)];
    assert attrs[..1][..0] == [] && attrs[..2][..1] == attrs[..1] && attrs[..3][..2] == attrs[..2];
    assert attrs[..3] == attrs;
    var b1 := if name.Some? then b.(name := name.value) else b;
    assert ApplyAttrs(b, attrs[..1]) == b1;
    var b2 := if description.Some? then b1.(description := description.value) else b1;
    assert ApplyAttrs(b, attrs[..2]) == b2;
    ApplyAttrs(b, attrs)
  }

  /** `authors.add(*authors)` on book `b`: set union on its author links. */
  function Linked(links: set<(nat, nat)>, b: nat, authors: seq<nat>): (r: set<(nat, nat)>)
    ensures AuthorsOf(r, b) == AuthorsOf(links, b) + (set a | a in authors)
    ensures forall c :: c != b ==> AuthorsOf(r, c) == AuthorsOf(links, c)
    ensures links <= r
  {
    var r := links + set a | a in authors :: (b, a);
    assert AuthorsOf(r, b) == AuthorsOf(links, b) + (set a | a in authors);
    r
  }

  /** `authors.remove(*authors)` on book `b`: set difference on its author links. */
  function Unlinked(links: set<(nat, nat)>, b: nat, authors: seq<nat>): (r: set<(nat, nat)>)
    ensures AuthorsOf(r, b) == AuthorsOf(links, b) - (set a | a in authors)
    ensures forall c :: c != b ==> AuthorsOf(r, c) == AuthorsOf(links, c)
    ensures r <= links
  {
    var r := links - set a | a in authors :: (b, a);
    assert AuthorsOf(r, b) == AuthorsOf(links, b) - (set a | a in authors);
    r
  }

  /** Adding authors that are already linked changes nothing. */
  lemma AddLinkedIsNoOp(links: set<(nat, nat)>, b: nat, authors: seq<nat>)
    requires forall a :: a in authors ==> a in AuthorsOf(links, b)
    ensures Linked(links, b, authors) == links
  {
  }

  /** Removing authors that are not linked changes nothing. */
  lemma RemoveUnlinkedIsNoOp(links: set<(nat, nat)>, b: nat, authors: seq<nat>)
    requires forall a :: a in authors ==> a !in AuthorsOf(links, b)
    ensures Unlinked(links, b, authors) == links
  {
  }

  /** Removing what was just added leaves the links the book had, minus those authors. */
  lemma RemoveAfterAdd(links: set<(nat, nat)>, b: nat, authors: seq<nat>)
    ensures AuthorsOf(Unlinked(Linked(links, b, authors), b, authors), b) == AuthorsOf(links, b) - (set a | a in authors)
  {
  }

  /** The link rows left after book `b` is deleted. */
  function LinksWithoutBook(links: set<(nat, nat)>, b: nat): (r: set<(nat, nat)>)
    ensures AuthorsOf(r, b) == {}
    ensures forall c :: c != b ==> AuthorsOf(r, c) == AuthorsOf(links, c)
  {
    var r := set p | p in links && p.0 != b;
    assert forall c :: c != b ==> AuthorsOf(r, c) == AuthorsOf(links, c);
    r
  }

  /** The dict returned by to_dict; `authors` lists the ids of the linked authors. */
  datatype BookDict = BookDict(id: nat, name: string, description: string, count: int, authors: seq<nat>)

  /** to_dict: the columns of the row and the ids of the current author set,
      each once, in whatever order the query yields them. */
  method ToDict(db: Database, id: nat) returns (d: BookDict)
    requires id in db.books
    ensures d.id == db.books[id].id && d.name == db.books[id].name
    ensures d.description == db.books[id].description && d.count == db.books[id].count
    ensures forall a :: a in d.authors <==> a in AuthorsOf(db.bookAuthors, id)
    ensures forall i, j :: 0 <= i < j < |d.authors| ==> d.authors[i] != d.authors[j]
  {
    var self := db.books[id];
    var pending := AuthorsOf(db.bookAuthors, id);
    var ids: seq<nat> := [];
    while pending != {}
      invariant forall a :: a in ids ==> a in AuthorsOf(db.bookAuthors, id) && a !in pending
      invariant forall a :: a in AuthorsOf(db.bookAuthors, id) ==> a in ids || a in pending
      invariant forall i, j :: 0 <= i < j < |ids| ==> ids[i] != ids[j]
      decreases pending
    {
      var a :| a in pending;
      ids := ids + [a];
      pending := pending - {a};
    }
    d := BookDict(self.id, self.name, self.description, self.count, ids);
  }

  function GetById(books: map<nat, Book>, id: int): (r: Option<Book>)
    requires BooksKeyed(books)
    ensures r.Some? <==> id in books
    ensures r.Some? ==> r.value.id == id && r.value in books.Values
  {
    if id in books then Some(books[id]) else None
  }

  function GetAll(books: map<nat, Book>): (r: set<Book>)
    requires BooksKeyed(books)
    ensures forall b :: b in r <==> b.id in books && books[b.id] == b
  {
    books.Values
  }

  /** `create`: full_clean and save, then attach the given authors. The
      authors are touched only once validation has passed, so only then
      must they be stored authors. */
  method Create(db: Database, name: string, description: string, count: int := DefaultCount, authors: seq<nat> := [])
    returns (r: Option<Book>)
    requires db.Valid()
    requires Fits(name, count) ==> forall a :: a in authors ==> a in db.authors
    modifies db`books, db`bookAuthors, db`nextId
    ensures db.Valid()
    ensures r.Some? <==> Fits(name, count)
    ensures r.None? ==> db.books == old(db.books) && db.bookAuthors == old(db.bookAuthors)
    ensures r.Some? ==> var b := r.value;
      && b.id !in old(db.books) && db.books == old(db.books)[b.id := b]
      && b.name == name && b.description == description && b.count == count
      && db.bookAuthors == Linked(old(db.bookAuthors), b.id, authors)
      && AuthorsOf(db.bookAuthors, b.id) == set a | a in authors
  {
    var book := Book(db.nextId, name, description, count);
    if !Fits(book.name, book.count) {
      return None;
    }
    assert AuthorsOf(db.bookAuthors, book.id) == {};
    db.books := db.books[book.id := book];
    db.nextId := db.nextId + 1;
    if authors != [] {
      db.bookAuthors := Linked(db.bookAuthors, book.id, authors);
    } else {
      assert Linked(db.bookAuthors, book.id, authors) == db.bookAuthors;
    }
    r := Some(book);
  }

  /** `update` on the instance with primary key `id`: the setattr loop, save,
      reload. Returns the instance as it is afterwards. */
  method Update(db: Database, id: nat, name: Option<string>, description: Option<string>, count: Option<int>)
    returns (self: Book)
    requires db.Valid() && id in db.books
    modifies db`books
    ensures db.Valid()
    ensures db.books == old(db.books)[id := Patched(old(db.books[id]), name, description, count)]
    ensures self == db.books[id]
  {
    self := db.books[id];
    self := SetAttrs(self, [NameAttr(name), DescriptionAttr(description), CountAttr(count)]);
    assert self == Patched(db.books[id], name, description, count);
    db.books := db.books[id := self];
    self := db.books[id];
  }

  /** `add_authors` on the book with primary key `id`. */
  method AddAuthors(db: Database, id: nat, authors: seq<nat>)
    requires db.Valid() && id in db.books
    requires forall a :: a in authors ==> a in db.authors
    modifies db`bookAuthors
    ensures db.Valid()
    ensures db.bookAuthors == Linked(old(db.bookAuthors), id, authors)
  {
    db.bookAuthors := Linked(db.bookAuthors, id, authors);
  }

  /** `remove_authors` on the book with primary key `id`. */
  method RemoveAuthors(db: Database, id: nat, authors: seq<nat>)
    requires db.Valid() && id in db.books
    modifies db`bookAuthors
    ensures db.Valid()
    ensures db.bookAuthors == Unlinked(old(db.bookAuthors), id, authors)
  {
    db.bookAuthors := Unlinked(db.bookAuthors, id, authors);
  }

  /** `delete_by_id`: true exactly when the book existed; its author links
      and its orders go with it, the authors stay. */
  method DeleteById(db: Database, id: int) returns (deleted: bool)
    requires db.Valid()
    modifies db`books, db`bookAuthors, db`orders
    ensures db.Valid()
    ensures deleted <==> id in old(db.books)
    ensures db.books == old(db.books) - {id}
    ensures deleted ==> db.bookAuthors == LinksWithoutBook(old(db.bookAuthors), id)
    ensures deleted ==> db.orders == OrdersWithoutBook(old(db.orders), id)
    ensures !deleted ==> db.bookAuthors == old(db.bookAuthors) && db.orders == old(db.orders)
  {
    deleted := id in db.books;
    if deleted {
      db.books := db.books - {id};
      db.bookAuthors := LinksWithoutBook(db.bookAuthors, id);
      db.orders := OrdersWithoutBook(db.orders, id);
    }
  }
}
