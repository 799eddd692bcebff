/** The session gate (app_corrigido.py, lines 11-14, 66-89 and 123-127).

    The page keeps two session fields: whether someone is logged in and who.
    A successful login sets both and records one access; a failed one changes
    nothing but may create the user file; logging out clears both. The admin
    panel is shown only to the administrator.
 */
module Gate {
  import opened Crypto
  import opened Users

  class Session {
    var authenticated: bool
    var user: string

    /** A fresh session: nobody logged in. */
    constructor ()
      ensures !authenticated && user == ""
    {
      authenticated := false;
      user := "";
    }

    /** The administration panel is offered to this session (line 89). */
    predicate ShowsAdminPanel(): (shown: bool)
      reads this
      ensures shown ==> authenticated && user == Admin
    {
      authenticated && user == Admin
    }

    /** The login form: authenticate against the store and, on success, log
        the user in and append one access event stamped `now`. */
    method Login(store: Store, name: string, password: string, bootSalt: Salt, now: string) returns (ok: bool)
      modifies this, store`users, store`log
      ensures var loaded := Loaded(old(store.users), store.hasher, bootSalt);
        ok == Accepts(store.hasher, loaded, name, password) && store.users == Some(loaded)
      ensures ok ==> authenticated && user == name
      ensures ok ==> (ShowsAdminPanel() <==> name == Admin)
      ensures ok ==> store.log == old(store.log) + [AccessEvent(name, now)]
      ensures !ok ==> authenticated == old(authenticated) && user == old(user) && store.log == old(store.log)
      ensures old(store.users).None? || old(store.Valid()) ==> store.Valid()
    {
      ok := store.Authenticate(name, password, bootSalt);
      if ok {
        authenticated := true;
        user := name;
        store.RecordAccess(name, now);
      }
    }

    /** The logout button: both session fields return to their initial values. */
    method Logout()
      modifies this
      ensures !authenticated && user == ""
      ensures !ShowsAdminPanel()
    {
      authenticated := false;
      user := "";
    }
  }

  /** Logging in through a freshly created store admits the administrator
      with the default password and records exactly one access for them. */
  method FirstLogin(h: Hasher, bootSalt: Salt, now: string) returns (session: Session, store: Store)
    requires Sound(h)
    ensures session.ShowsAdminPanel()
    ensures store.log == [AccessEvent(Admin, now)]
    ensures store.Valid()
  {
    store := new Store(h, None, []);
    session := new Session();
    BootstrapAdmitsAdmin(h, bootSalt);
    var ok := session.Login(store, Admin, AdminPassword, bootSalt, now);
  }
}
