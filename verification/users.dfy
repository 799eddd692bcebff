/** The user store and the access log (app_corrigido.py, lines 8-9 and 23-63).

    Both are flat tables kept in files: `usuarios.csv` holds one row
    `(usuario, senha)` per user, the password column holding a bcrypt digest;
    `log_acessos.csv` holds one row `(usuario, datahora)` per successful login.
    Here the two files are the fields of a `Store` object; every operation of
    the source reads the table, computes a new one and writes it back, which is
    a reassignment of the field. The user file may be absent (`None`), and
    every operation that reads it first recreates it with the single
    administrator row in that case.
 */
module Users {
  import opened Seqs
  import opened Crypto

  datatype Option<T> = None | Some(value: T)

  /** One row of the user table. */
  datatype User = User(name: string, hash: string)

  /** One row of the access log; the time is already formatted as
      `YYYY-MM-DD HH:MM:SS`. */
  datatype AccessEvent = AccessEvent(user: string, time: string)

  /** The administrator, who can never be deleted, and the password the store
      is bootstrapped with. */
  const Admin: string := "Jonathan"
  const AdminPassword: string := "Jacare@92"

  /** Some row of the table carries the name (the `in ...values` test). */
  predicate Registered(rows: seq<User>, name: string): (found: bool)
    ensures found <==> exists u :: u in rows && u.name == name
  {
    exists i :: 0 <= i < |rows| && rows[i].name == name
  }

  /** The position of the first row carrying the name, if any
      (`df[df["usuario"] == usuario].iloc[0]`). */
  function Lookup(rows: seq<User>, name: string): (r: Option<nat>)
    ensures r.None? <==> !Registered(rows, name)
    ensures r.Some? ==> r.value < |rows| && rows[r.value].name == name
    ensures r.Some? ==> forall j :: 0 <= j < r.value ==> rows[j].name != name
  {
    if rows == [] then None
    else if rows[0].name == name then Some(0)
    else
      match Lookup(rows[1..], name)
      case None =>
        assert forall j :: 0 < j < |rows| ==> rows[j] == rows[1..][j - 1];
        None
      case Some(i) => Some(i + 1)
  }

  /** `autenticar` on a given table: the password is checked against the
      digest of the first row carrying the name; an unknown name is rejected. */
  function Accepts(h: Hasher, rows: seq<User>, name: string, password: string): (ok: bool)
    ensures !Registered(rows, name) ==> !ok
    ensures ok ==> exists i :: 0 <= i < |rows| && rows[i].name == name && VerifyPassword(h, password, rows[i].hash)
  {
    match Lookup(rows, name)
    case None => false
    case Some(i) => VerifyPassword(h, password, rows[i].hash)
  }

  /** The table with every row carrying the name removed
      (`df[df["usuario"] != usuario]`). */
  function Without(rows: seq<User>, name: string): (r: seq<User>)
    ensures forall u :: u in r <==> u in rows && u.name != name
    ensures !Registered(r, name)
    ensures !Registered(rows, name) ==> r == rows
  {
    var keep := (u: User) => u.name != name;
    if !Registered(rows, name) then
      assert forall u :: u in rows ==> keep(u);
      FilterKeepsAll(rows, keep);
      Filter(rows, keep)
    else
      var r := Filter(rows, keep);
      assert forall i :: 0 <= i < |r| ==> r[i] in r;
      r
  }

  /** The names offered by the deletion panel: every user but the
      administrator, in table order (line 106). */
  function RemovableNames(rows: seq<User>): (r: seq<string>)
    ensures forall n :: n in r <==> Registered(rows, n) && n != Admin
  {
    var names := seq(|rows|, i requires 0 <= i < |rows| => rows[i].name);
    forall n ensures n in names <==> Registered(rows, n) {
      if n in names {
        var k :| 0 <= k < |names| && names[k] == n;
        assert rows[k].name == n;
      }
      if Registered(rows, n) {
        var k :| 0 <= k < |rows| && rows[k].name == n;
        assert names[k] == n;
      }
    }
    Filter(names, (n: string) => n != Admin)
  }

  /** What `carregar_usuarios` returns: the stored table, or, when there is
      none, a table holding only the administrator with a digest of the
      default password. */
  function Loaded(stored: Option<seq<User>>, h: Hasher, bootSalt: Salt): (rows: seq<User>)
    ensures stored.Some? ==> rows == stored.value
    ensures stored.None? ==> |rows| == 1 && rows[0].name == Admin
    ensures stored.None? && Sound(h) ==> VerifyPassword(h, AdminPassword, rows[0].hash)
  {
    match stored
    case Some(rows) => rows
    case None => [User(Admin, HashPassword(h, AdminPassword, bootSalt))]
  }

  /** No two rows carry the same name. */
  ghost predicate UniqueNames(rows: seq<User>)
  {
    forall i, j :: 0 <= i < |rows| && 0 <= j < |rows| && rows[i].name == rows[j].name ==> i == j
  }

  /** The shape every table written by this program has: the administrator
      row first, and no name twice. */
  ghost predicate WellFormed(rows: seq<User>)
  {
    |rows| > 0 && rows[0].name == Admin && UniqueNames(rows)
  }

  // ---------------------------------------------------------------------
  // Properties of the table operations

  /** Authentication succeeds exactly when some row carries the name, no
      earlier row does, and the password checks against that row's digest. */
  lemma AcceptsFirstMatch(h: Hasher, rows: seq<User>, name: string, password: string)
    ensures Accepts(h, rows, name, password) <==>
      exists i :: 0 <= i < |rows| && rows[i].name == name
        && (forall j :: 0 <= j < i ==> rows[j].name != name)
        && VerifyPassword(h, password, rows[i].hash)
  {
  }

  /** A name that is not registered cannot log in, whatever the password. */
  lemma UnknownNameRejected(h: Hasher, rows: seq<User>, name: string, password: string)
    requires !Registered(rows, name)
    ensures !Accepts(h, rows, name, password)
  {
  }

  /** The bootstrapped table holds exactly the administrator, who can log in
      with the default password. */
  lemma {:induction false} BootstrapAdmitsAdmin(h: Hasher, bootSalt: Salt)
    requires Sound(h)
    ensures var rows := Loaded(None, h, bootSalt);
      |rows| == 1 && rows[0].name == Admin && Accepts(h, rows, Admin, AdminPassword)
    ensures WellFormed(Loaded(None, h, bootSalt))
  {
  }

  /** Appending a row for a new name leaves the earlier rows in charge of
      their own names, and makes the new name log in with its password. */
  lemma {:induction false} AppendNewUser(h: Hasher, rows: seq<User>, name: string, password: string, salt: Salt)
    requires Sound(h)
    requires !Registered(rows, name)
    ensures Accepts(h, rows + [User(name, HashPassword(h, password, salt))], name, password)
    ensures forall other, p :: other != name ==>
      Accepts(h, rows + [User(name, HashPassword(h, password, salt))], other, p) == Accepts(h, rows, other, p)
  {
    var added := rows + [User(name, HashPassword(h, password, salt))];
    AppendKeepsLookup(rows, User(name, HashPassword(h, password, salt)), name);
    forall other, p | other != name
      ensures Accepts(h, added, other, p) == Accepts(h, rows, other, p)
    {
      AppendKeepsLookup(rows, User(name, HashPassword(h, password, salt)), other);
    }
  }

  /** Appending a row changes the first match of a name only when no earlier
      row carries it, and then the match is the new last row. */
  lemma {:induction false} AppendKeepsLookup(rows: seq<User>, u: User, name: string)
    ensures Lookup(rows + [u], name) ==
      if Registered(rows, name) then Lookup(rows, name)
      else if u.name == name then Some(|rows|)
      else None
  {
    if rows != [] && rows[0].name != name {
      assert (rows + [u])[1..] == rows[1..] + [u];
      assert Registered(rows, name) == Registered(rows[1..], name) by {
        assert forall i :: 0 < i < |rows| ==> rows[i] == rows[1..][i - 1];
      }
      AppendKeepsLookup(rows[1..], u, name);
    }
  }

  /** After deletion the name can no longer log in. */
  lemma DeletedUserRejected(h: Hasher, rows: seq<User>, name: string, password: string)
    ensures !Accepts(h, Without(rows, name), name, password)
  {
  }

  /** Deletion keeps the other rows in their order, each as often as before. */
  lemma {:induction false} WithoutKeepsOthers(rows: seq<User>, name: string)
    ensures IsSubsequence(Without(rows, name), rows)
    ensures forall u: User :: u.name != name ==> multiset(Without(rows, name))[u] == multiset(rows)[u]
  {
    var keep := (u: User) => u.name != name;
    assert Without(rows, name) == Filter(rows, keep);
    FilterIsSubsequence(rows, keep);
    forall u: User | u.name != name
      ensures multiset(Without(rows, name))[u] == multiset(rows)[u]
    {
      FilterCount(rows, keep, u);
    }
  }

  /** Removing the rows of a user keeps a table with unique names unique. */
  lemma {:induction false} FilterKeepsUnique(rows: seq<User>, keep: User -> bool)
    requires UniqueNames(rows)
    ensures UniqueNames(Filter(rows, keep))
  {
    if rows != [] {
      var tail := rows[1..];
      assert UniqueNames(tail) by {
        forall i, j | 0 <= i < |tail| && 0 <= j < |tail| && tail[i].name == tail[j].name
          ensures i == j
        {
          assert rows[i + 1] == tail[i] && rows[j + 1] == tail[j];
        }
      }
      FilterKeepsUnique(tail, keep);
      var rest := Filter(tail, keep);
      if keep(rows[0]) {
        var r := [rows[0]] + rest;
        forall k | 0 < k < |r|
          ensures r[k].name != rows[0].name
        {
          assert r[k] in tail;
          var m :| 0 <= m < |tail| && tail[m] == r[k];
          assert rows[m + 1] == r[k];
        }
      }
    }
  }

  /** Deleting any user other than the administrator keeps the table well formed. */
  lemma {:induction false} WithoutKeepsWellFormed(rows: seq<User>, name: string)
    requires WellFormed(rows)
    requires name != Admin
    ensures WellFormed(Without(rows, name))
  {
    var keep := (u: User) => u.name != name;
    assert Without(rows, name) == Filter(rows, keep);
    FilterKeepsUnique(rows, keep);
    assert rows == [rows[0]] + rows[1..];
    FilterConcat([rows[0]], rows[1..], keep);
    assert Filter([rows[0]], keep) == [rows[0]] + Filter([], keep);
  }

  /** Appending a new name keeps the table well formed. */
  lemma AppendKeepsWellFormed(rows: seq<User>, u: User)
    requires WellFormed(rows)
    requires !Registered(rows, u.name)
    ensures WellFormed(rows + [u])
  {
  }

  // ---------------------------------------------------------------------
  // The files, as an object

  /** The two files the application keeps, and the hash function it uses. */
  class Store {
    const hasher: Hasher
    /** `usuarios.csv`; `None` while the file does not exist. */
    var users: Option<seq<User>>
    /** `log_acessos.csv`, oldest event first. */
    var log: seq<AccessEvent>

    /** The user file, when present, has the shape this program gives it. */
    ghost predicate Valid()
      reads this
    {
      users.Some? ==> WellFormed(users.value)
    }

    constructor (h: Hasher, users: Option<seq<User>>, log: seq<AccessEvent>)
      ensures hasher == h && this.users == users && this.log == log
    {
      hasher := h;
      this.users := users;
      this.log := log;
    }

    /** `carregar_usuarios`: returns the user table, first creating it with the
        administrator alone when the file is missing. */
    method LoadUsers(bootSalt: Salt) returns (rows: seq<User>)
      modifies this`users
      ensures old(users).Some? ==> rows == old(users).value
      ensures old(users).None? ==> rows == [User(Admin, HashPassword(hasher, AdminPassword, bootSalt))]
      ensures users == Some(rows)
      ensures old(users).None? || old(Valid()) ==> Valid()
    {
      if users.None? {
        var digest := HashPassword(hasher, AdminPassword, bootSalt);
        users := Some([User(Admin, digest)]);
      }
      rows := users.value;
    }

    /** `salvar_usuario`: adds a user at the end of the table unless the name is
        taken. The table is loaded first, so a missing file is recreated even
        when the name is rejected. */
    method SaveUser(name: string, password: string, bootSalt: Salt, salt: Salt) returns (ok: bool)
      modifies this`users
      ensures var loaded := Loaded(old(users), hasher, bootSalt);
        && ok == !Registered(loaded, name)
        && users == Some(if ok then loaded + [User(name, HashPassword(hasher, password, salt))] else loaded)
      ensures ok && Sound(hasher) ==> Accepts(hasher, users.value, name, password)
      ensures old(users).None? || old(Valid()) ==> Valid()
    {
      var rows := LoadUsers(bootSalt);
      if Registered(rows, name) {
        ok := false;
        return;
      }
      var digest := HashPassword(hasher, password, salt);
      users := Some(rows + [User(name, digest)]);
      ok := true;
      if Sound(hasher) {
        AppendNewUser(hasher, rows, name, password, salt);
      }
      if WellFormed(rows) {
        AppendKeepsWellFormed(rows, User(name, digest));
      }
    }

    /** `excluir_usuario`: removes every row carrying the name, except that the
        administrator is refused. Deleting an unknown name succeeds and
        leaves the table as loaded. */
    method DeleteUser(name: string, bootSalt: Salt) returns (ok: bool)
      modifies this`users
      ensures var loaded := Loaded(old(users), hasher, bootSalt);
        && ok == (name != Admin)
        && users == Some(if ok then Without(loaded, name) else loaded)
      ensures ok ==> !Registered(users.value, name)
      ensures old(users).None? || old(Valid()) ==> Valid()
    {
      var rows := LoadUsers(bootSalt);
      if name == Admin {
        ok := false;
        return;
      }
      users := Some(Without(rows, name));
      ok := true;
      if WellFormed(rows) {
        WithoutKeepsWellFormed(rows, name);
      }
    }

    /** `autenticar`: loads the table and checks the password against the first
        row carrying the name. */
    method Authenticate(name: string, password: string, bootSalt: Salt) returns (ok: bool)
      modifies this`users
      ensures var loaded := Loaded(old(users), hasher, bootSalt);
        ok == Accepts(hasher, loaded, name, password) && users == Some(loaded)
      ensures old(users).None? || old(Valid()) ==> Valid()
    {
      var rows := LoadUsers(bootSalt);
      ok := Accepts(hasher, rows, name, password);
    }

    /** `registrar_acesso`: appends one event and keeps every earlier one. */
    method RecordAccess(name: string, now: string)
      modifies this`log
      ensures log == old(log) + [AccessEvent(name, now)]
    {
      log := log + [AccessEvent(name, now)];
    }
  }
}
