/** Author: the author table, validated creation, the all-or-nothing update
    and deletion, which also drops the author from every book. */
module Authors {
  import opened Schema

  const FieldMaxLength: nat := 20

  /** full_clean on an author: each CharField within max_length (blank allowed). */
  predicate FieldsFit(name: string, surname: string, patronymic: string) {
    |name| <= FieldMaxLength && |surname| <= FieldMaxLength && |patronymic| <= FieldMaxLength
  }

  predicate Fits(a: Author) {
    FieldsFit(a.name, a.surname, a.patronymic)
  }

  /** Every stored author passed full_clean. */
  ghost predicate AllFit(authors: map<nat, Author>) {
    forall id :: id in authors ==> Fits(authors[id])
  }

  /** The attribute names `update` assigns with setattr. */
  datatype Field = Name | Surname | Patronymic

  function SetAttr(a: Author, f: Field, v: string): (r: Author)
    ensures r.id == a.id
  {
    match f
    case Name => a.(name := v)
    case Surname => a.(surname := v)
    case Patronymic => a.(patronymic := v)
  }

  /** An attrs dict: attribute names with values, None meaning "not given". */
  type Attrs = seq<(Field, Option<string>)>

  /** The effect of `for attr, value in attrs.items(): if value is not None: setattr(...)`. */
  function ApplyAttrs(a: Author, attrs: Attrs): (r: Author)
    ensures r.id == a.id
    decreases |attrs|
  {
    if attrs == [] then a
    else
      var (f, v) := attrs[|attrs| - 1];
      var b := ApplyAttrs(a, attrs[..|attrs| - 1]);
      if v.Some? then SetAttr(b, f, v.value) else b
  }

  /** The setattr loop, on the in-memory instance. */
  method SetAttrs(self: Author, attrs: Attrs) returns (r: Author)
    ensures r == ApplyAttrs(self, attrs)
  {
    r := self;
    var i := 0;
    while i < |attrs|
      invariant 0 <= i <= |attrs|
      invariant r == ApplyAttrs(self, attrs[..i])
    {
      var (attr, value) := attrs[i];
      if value.Some? {
        r := SetAttr(r, attr, value.value);
      }
      assert attrs[..i + 1][..i] == attrs[..i];
      i := i + 1;
    }
    assert attrs[..i] == attrs;
  }

  /** The attrs dict `update` builds from its arguments. */
  function UpdateAttrs(name: Option<string>, surname: Option<string>, patronymic: Option<string>): Attrs {
    [(Name, name), (Surname, surname), (Patronymic, patronymic)]
  }

  /** The `original` snapshot, as an attrs dict with every value given. */
  function Snapshot(a: Author): Attrs {
    [(Name, Some(a.name)), (Surname, Some(a.surname)), (Patronymic, Some(a.patronymic))]
  }

  /** The in-memory instance after the update loop: exactly the non-None
      arguments are set, everything else is as before. */
  function Patched(a: Author, name: Option<string>, surname: Option<string>, patronymic: Option<string>): (r: Author)
    ensures r.id == a.id
    ensures r.name == (if name.Some? then name.value else a.name)
    ensures r.surname == (if surname.Some? then surname.value else a.surname)
    ensures r.patronymic == (if patronymic.Some? then patronymic.value else a.patronymic)
  {
    var attrs := UpdateAttrs(name, surname, patronymic);
    assert attrs[..1][..0] == [] && attrs[..2][..1] == attrs[..1] && attrs[..3][..2] == attrs[..2];
    assert attrs[..3] == attrs;
    var a1 := if name.Some? then a.(name := name.value) else a;
    assert ApplyAttrs(a, attrs[..1]) == a1;
    var a2 := if surname.Some? then a1.(surname := surname.value) else a1;
    assert ApplyAttrs(a, attrs[..2]) == a2;
    ApplyAttrs(a, attrs)
  }

  /** Restoring the snapshot undoes any patch of the same instance. */
  lemma RestoreUndoes(a: Author, b: Author)
    requires b.id == a.id
    ensures ApplyAttrs(b, Snapshot(a)) == a
  {
    var s := Snapshot(a);
    assert s[..1][..0] == [] && s[..2][..1] == s[..1] && s[..3][..2] == s[..2];
    assert s[..3] == s;
    assert ApplyAttrs(b, s[..1]) == b.(name := a.name);
    assert ApplyAttrs(b, s[..2]) == b.(name := a.name, surname := a.surname);
  }

  /** The row `update` leaves stored: the patched author if it passes
      full_clean, otherwise the old row. */
  function UpdateOutcome(a: Author, name: Option<string>, surname: Option<string>, patronymic: Option<string>): (r: Author)
    ensures r.id == a.id
    ensures Fits(a) ==> Fits(r)
  {
    var p := Patched(a, name, surname, patronymic);
    if Fits(p) then p else a
  }

  /** All or nothing: either every non-None argument is applied, or the row
      is unchanged; it is unchanged exactly when some resulting field is too long. */
  lemma UpdateAllOrNothing(a: Author, name: Option<string>, surname: Option<string>, patronymic: Option<string>)
    ensures var r := UpdateOutcome(a, name, surname, patronymic);
      && (FieldsFit(if name.Some? then name.value else a.name,
                    if surname.Some? then surname.value else a.surname,
                    if patronymic.Some? then patronymic.value else a.patronymic)
          ==> (name.Some? ==> r.name == name.value)
              && (surname.Some? ==> r.surname == surname.value)
              && (patronymic.Some? ==> r.patronymic == patronymic.value)
              && (name.None? ==> r.name == a.name)
              && (surname.None? ==> r.surname == a.surname)
              && (patronymic.None? ==> r.patronymic == a.patronymic))
      && (!FieldsFit(if name.Some? then name.value else a.name,
                     if surname.Some? then surname.value else a.surname,
                     if patronymic.Some? then patronymic.value else a.patronymic)
          ==> r == a)
  {
  }

  /** The dict returned by to_dict. */
  datatype AuthorDict = AuthorDict(id: nat, name: string, surname: string, patronymic: string)

  function ToDict(a: Author): AuthorDict {
    AuthorDict(a.id, a.name, a.surname, a.patronymic)
  }

  /** to_dict loses nothing: the dict determines the author. */
  lemma ToDictInjective(a: Author, b: Author)
    ensures ToDict(a) == ToDict(b) <==> a == b
  {
  }

  function GetById(authors: map<nat, Author>, id: int): (r: Option<Author>)
    requires AuthorsKeyed(authors)
    ensures r.Some? <==> id in authors
    ensures r.Some? ==> r.value.id == id && r.value in authors.Values
  {
    if id in authors then Some(authors[id]) else None
  }

  function GetAll(authors: map<nat, Author>): (r: set<Author>)
    requires AuthorsKeyed(authors)
    ensures forall a :: a in r <==> a.id in authors && authors[a.id] == a
  {
    authors.Values
  }

  /** The link rows left after author `a` is deleted (the through table cascades). */
  function LinksWithoutAuthor(links: set<(nat, nat)>, a: nat): (r: set<(nat, nat)>)
    ensures forall b :: AuthorsOf(r, b) == AuthorsOf(links, b) - {a}
  {
    var r := set p | p in links && p.1 != a;
    assert forall b :: AuthorsOf(r, b) == AuthorsOf(links, b) - {a};
    r
  }

  /** `create`: full_clean, then save; nothing is stored when validation fails. */
  method Create(db: Database, name: string, surname: string, patronymic: string) returns (r: Option<Author>)
    requires db.Valid()
    modifies db`authors, db`nextId
    ensures db.Valid()
    ensures AllFit(old(db.authors)) ==> AllFit(db.authors)
    ensures r.Some? <==> FieldsFit(name, surname, patronymic)
    ensures r.None? ==> db.authors == old(db.authors)
    ensures r.Some? ==> var a := r.value;
      && a.id !in old(db.authors) && db.authors == old(db.authors)[a.id := a]
      && a.name == name && a.surname == surname && a.patronymic == patronymic
  {
    var author := Author(db.nextId, name, surname, patronymic);
    if !Fits(author) {
      return None;
    }
    db.authors := db.authors[author.id := author];
    db.nextId := db.nextId + 1;
    r := Some(author);
  }

  /** `update` on the instance with primary key `id`: snapshot, apply the
      given fields, validate and save, or restore the snapshot; then reload.
      Returns the instance as it is afterwards. */
  method Update(db: Database, id: nat, name: Option<string>, surname: Option<string>, patronymic: Option<string>)
    returns (self: Author)
    requires db.Valid() && id in db.authors
    modifies db`authors
    ensures db.Valid()
    ensures AllFit(old(db.authors)) ==> AllFit(db.authors)
    ensures db.authors == old(db.authors)[id := UpdateOutcome(old(db.authors[id]), name, surname, patronymic)]
    ensures self == db.authors[id]
  {
    self := db.authors[id];
    var original := Snapshot(self);
    self := SetAttrs(self, UpdateAttrs(name, surname, patronymic));
    if Fits(self) {
      db.authors := db.authors[id := self];
    } else {
      RestoreUndoes(db.authors[id], self);
      self := SetAttrs(self, original);
      assert self == db.authors[id];
    }
    self := db.authors[id];
  }

  /** `delete_by_id`: true exactly when the author existed; its book links go
      with it, the books stay. */
  method DeleteById(db: Database, id: int) returns (deleted: bool)
    requires db.Valid()
    modifies db`authors, db`bookAuthors
    ensures db.Valid()
    ensures AllFit(old(db.authors)) ==> AllFit(db.authors)
    ensures deleted <==> id in old(db.authors)
    ensures db.authors == old(db.authors) - {id}
    ensures deleted ==> db.bookAuthors == LinksWithoutAuthor(old(db.bookAuthors), id)
    ensures !deleted ==> db.bookAuthors == old(db.bookAuthors)
  {
    deleted := id in db.authors;
    if deleted {
      db.authors := db.authors - {id};
      db.bookAuthors := LinksWithoutAuthor(db.bookAuthors, id);
    }
  }
}
