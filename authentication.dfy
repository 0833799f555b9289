/** CustomUser: the account table, its validated factory, the partial update,
    lookups and the role names. */
module Authentication {
  import opened Schema

  const NameMaxLength: nat := 20
  const Visitor: int := 0
  const Admin: int := 1

  /** ROLE_CHOICES, in declaration order. */
  const RoleChoices: seq<(int, string)> := [(Visitor, "visitor"), (Admin, "admin")]

  /** No pair after position `j` has key `key`. */
  ghost predicate LastWith(pairs: seq<(int, string)>, key: int, j: int) {
    forall k :: 0 <= k && j < k < |pairs| ==> pairs[k].0 != key
  }

  /** `dict(pairs).get(key, default)`: building a dict from pairs keeps the
      last value given for a key. */
  function DictGet(pairs: seq<(int, string)>, key: int, default: string): (r: string)
    ensures (forall i :: 0 <= i < |pairs| ==> pairs[i].0 != key) ==> r == default
    ensures forall j :: 0 <= j < |pairs| && pairs[j].0 == key && LastWith(pairs, key, j) ==> r == pairs[j].1
  {
    if pairs == [] then default
    else if pairs[|pairs| - 1].0 == key then pairs[|pairs| - 1].1
    else DictGet(pairs[..|pairs| - 1], key, default)
  }

  /** get_role_name: total, with 'unknown' for any role outside ROLE_CHOICES. */
  function RoleName(role: int): (r: string)
    ensures role == Visitor ==> r == "visitor"
    ensures role == Admin ==> r == "admin"
    ensures role != Visitor && role != Admin ==> r == "unknown"
  {
    assert LastWith(RoleChoices, Visitor, 0) && LastWith(RoleChoices, Admin, 1);
    DictGet(RoleChoices, role, "unknown")
  }

  /** Python's `len(s or '')`: an absent name has length 0. */
  function Length(s: Option<string>): nat {
    if s.None? then 0 else |s.value|
  }

  /** Python's truthiness of an optional string: present and non-empty. */
  predicate Truthy(s: Option<string>) {
    s.Some? && s.value != ""
  }

  predicate NamesFit(firstName: Option<string>, middleName: Option<string>, lastName: Option<string>) {
    Length(firstName) <= NameMaxLength && Length(middleName) <= NameMaxLength && Length(lastName) <= NameMaxLength
  }

  predicate EmailShaped(email: string) {
    '@' in email && '.' in email
  }

  predicate EmailTaken(users: map<nat, User>, email: string) {
    exists id :: id in users && users[id].email == email
  }

  /** The three checks of `create`, in order. */
  predicate Accepts(users: map<nat, User>, email: string,
                    firstName: Option<string>, middleName: Option<string>, lastName: Option<string>) {
    NamesFit(firstName, middleName, lastName) && EmailShaped(email) && !EmailTaken(users, email)
  }

  /** The row `update` saves, starting from row `u`. */
  function Updated(u: User, firstName: Option<string>, lastName: Option<string>,
                   middleName: Option<string>, password: Option<string>,
                   role: Option<int>, isActive: Option<bool>, now: int): (r: User)
    ensures r.id == u.id && r.email == u.email && r.createdAt == u.createdAt
    ensures r.updatedAt == now
    ensures r.firstName == (if Truthy(firstName) then firstName else u.firstName)
    ensures r.lastName == (if Truthy(lastName) then lastName else u.lastName)
    ensures r.middleName == (if Truthy(middleName) then middleName else u.middleName)
    ensures r.password == (if Truthy(password) then password.value else u.password)
    ensures r.role == (if role.Some? then role.value else u.role)
    ensures r.isActive == (if isActive.Some? then isActive.value else u.isActive)
  {
    var u1 := if Truthy(firstName) then u.(firstName := firstName) else u;
    var u2 := if Truthy(lastName) then u1.(lastName := lastName) else u1;
    var u3 := if Truthy(middleName) then u2.(middleName := middleName) else u2;
    var u4 := if Truthy(password) then u3.(password := password.value) else u3;
    var u5 := if role.Some? then u4.(role := role.value) else u4;
    var u6 := if isActive.Some? then u5.(isActive := isActive.value) else u5;
    u6.(updatedAt := now)
  }

  /** `update` with None or '' for every name and the password touches no string column. */
  lemma UpdateKeepsFalsyStrings(u: User, firstName: Option<string>, lastName: Option<string>,
                                middleName: Option<string>, password: Option<string>,
                                role: Option<int>, isActive: Option<bool>, now: int)
    requires !Truthy(firstName) && !Truthy(lastName) && !Truthy(middleName) && !Truthy(password)
    ensures Updated(u, firstName, lastName, middleName, password, role, isActive, now)
         == u.(role := if role.Some? then role.value else u.role,
               isActive := if isActive.Some? then isActive.value else u.isActive,
               updatedAt := now)
  {
  }

  /** A truthy name or password is stored as given. */
  lemma UpdateStoresTruthyStrings(u: User, firstName: Option<string>, lastName: Option<string>,
                                  middleName: Option<string>, password: Option<string>,
                                  role: Option<int>, isActive: Option<bool>, now: int)
    ensures var r := Updated(u, firstName, lastName, middleName, password, role, isActive, now);
      && (Truthy(firstName) ==> r.firstName == firstName)
      && (Truthy(lastName) ==> r.lastName == lastName)
      && (Truthy(middleName) ==> r.middleName == middleName)
      && (Truthy(password) ==> r.password == password.value)
  {
  }

  /** Repeating an update with the same arguments at the same time changes nothing more. */
  lemma UpdateIdempotent(u: User, firstName: Option<string>, lastName: Option<string>,
                         middleName: Option<string>, password: Option<string>,
                         role: Option<int>, isActive: Option<bool>, now: int)
    ensures var once := Updated(u, firstName, lastName, middleName, password, role, isActive, now);
      Updated(once, firstName, lastName, middleName, password, role, isActive, now) == once
  {
  }

  /** The dict returned by to_dict: every column except the password. */
  datatype UserDict = UserDict(
    id: nat,
    firstName: Option<string>,
    middleName: Option<string>,
    lastName: Option<string>,
    email: string,
    createdAt: int,
    updatedAt: int,
    role: int,
    isActive: bool)

  function ToDict(u: User): UserDict {
    UserDict(u.id, u.firstName, u.middleName, u.lastName, u.email, u.createdAt, u.updatedAt, u.role, u.isActive)
  }

  /** to_dict does not expose the password, and loses nothing else. */
  lemma ToDictDeterminesAllButPassword(u: User, v: User)
    ensures ToDict(u) == ToDict(v) <==> u == v.(password := u.password)
  {
  }

  lemma InsertKeepsEmailsUnique(users: map<nat, User>, u: User)
    requires EmailsUnique(users) && u.id !in users && !EmailTaken(users, u.email)
    ensures EmailsUnique(users[u.id := u])
  {
  }

  lemma ReplaceKeepsEmailsUnique(users: map<nat, User>, u: User)
    requires EmailsUnique(users) && u.id in users && users[u.id].email == u.email
    ensures EmailsUnique(users[u.id := u])
  {
  }

  function GetById(users: map<nat, User>, id: int): (r: Option<User>)
    requires UsersKeyed(users)
    ensures r.Some? <==> id in users
    ensures r.Some? ==> r.value.id == id && r.value in users.Values
  {
    if id in users then Some(users[id]) else None
  }

  /** `filter(email=email).first()`: with emails unique there is at most one match. */
  function GetByEmail(users: map<nat, User>, email: string): (r: Option<User>)
    requires UsersKeyed(users) && EmailsUnique(users)
    ensures r.Some? <==> EmailTaken(users, email)
    ensures r.Some? ==> r.value.email == email && r.value.id in users && users[r.value.id] == r.value
    ensures forall id :: id in users && users[id].email == email ==> r == Some(users[id])
  {
    if EmailTaken(users, email) then
      var id :| id in users && users[id].email == email; Some(users[id])
    else None
  }

  function GetAll(users: map<nat, User>): (r: set<User>)
    requires UsersKeyed(users)
    ensures forall u :: u in r <==> u.id in users && users[u.id] == u
  {
    users.Values
  }

  /** `create`: the three checks, then one insert with the defaults of the model. */
  method Create(db: Database, email: string, password: string,
                firstName: Option<string>, middleName: Option<string>, lastName: Option<string>, now: int)
    returns (r: Option<User>)
    requires db.Valid()
    modifies db`users, db`nextId
    ensures db.Valid()
    ensures r.Some? <==> Accepts(old(db.users), email, firstName, middleName, lastName)
    ensures r.None? ==> db.users == old(db.users)
    ensures r.Some? ==> var u := r.value;
      && u.id !in old(db.users) && db.users == old(db.users)[u.id := u]
      && u.email == email && u.password == password
      && u.firstName == firstName && u.middleName == middleName && u.lastName == lastName
      && u.role == Visitor && !u.isActive && u.createdAt == now && u.updatedAt == now
      && GetByEmail(db.users, email) == r
  {
    if !NamesFit(firstName, middleName, lastName) {
      return None;
    }
    if !EmailShaped(email) {
      return None;
    }
    if EmailTaken(db.users, email) {
      return None;
    }
    var u := User(db.nextId, firstName, middleName, lastName, email, password, now, now, Visitor, false);
    InsertKeepsEmailsUnique(db.users, u);
    db.users := db.users[u.id := u];
    db.nextId := db.nextId + 1;
    r := Some(u);
    assert db.users[u.id].email == email;
  }

  /** `update` on the instance with primary key `id`: sequential field
      assignments, then save. Returns the instance as it is afterwards. */
  method Update(db: Database, id: nat, firstName: Option<string>, lastName: Option<string>,
                middleName: Option<string>, password: Option<string>,
                role: Option<int>, isActive: Option<bool>, now: int)
    returns (self: User)
    requires db.Valid() && id in db.users
    modifies db`users
    ensures db.Valid()
    ensures db.users == old(db.users)[id := Updated(old(db.users[id]), firstName, lastName, middleName, password, role, isActive, now)]
    ensures self == db.users[id]
  {
    self := db.users[id];
    if Truthy(firstName) {
      self := self.(firstName := firstName);
    }
    if Truthy(lastName) {
      self := self.(lastName := lastName);
    }
    if Truthy(middleName) {
      self := self.(middleName := middleName);
    }
    if Truthy(password) {
      self := self.(password := password.value);
    }
    if role.Some? {
      self := self.(role := role.value);
    }
    if isActive.Some? {
      self := self.(isActive := isActive.value);
    }
    self := self.(updatedAt := now);
    assert self == Updated(db.users[id], firstName, lastName, middleName, password, role, isActive, now);
    ReplaceKeepsEmailsUnique(db.users, self);
    db.users := db.users[id := self];
  }

  /** `delete_by_id`; the user's orders go with it (on_delete=CASCADE). */
  method DeleteById(db: Database, id: int) returns (deleted: bool)
    requires db.Valid()
    modifies db`users, db`orders
    ensures db.Valid()
    ensures deleted <==> id in old(db.users)
    ensures db.users == old(db.users) - {id}
    ensures deleted ==> db.orders == OrdersWithoutUser(old(db.orders), id)
    ensures !deleted ==> db.orders == old(db.orders)
  {
    if id in db.users {
      db.users := db.users - {id};
      db.orders := OrdersWithoutUser(db.orders, id);
      deleted := true;
    } else {
      deleted := false;
    }
  }
}
