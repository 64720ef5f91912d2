/** The Go types behind the state machine: the store, whose methods are SQL statements, and the handlers. */
module Server {
  import opened Options
  import opened LittleEndian
  import opened Store
  import opened Accounts

  class Database {
    var users: map<nat, User>
    var sessions: map<Token, Session>
    var nextId: nat

    function Value(): Db
      reads this
    {
      Db(users, sessions, nextId)
    }

    constructor ()
      ensures Value() == Db(map[], map[], 0)
    {
      users, sessions, nextId := map[], map[], 0;
    }

    /** Names are unique, so the scan finds the one user there is. */
    method GetUserByUsername(name: string) returns (r: Option<nat>)
      requires Sound(Value())
      ensures r == Find(Value(), name)
    {
      var todo := users.Keys;
      while todo != {}
        invariant todo <= users.Keys
        invariant forall i | i in users && users[i].username == name :: i in todo
        decreases |todo|
      {
        var i :| i in todo;
        if users[i].username == name {
          return Some(i);
        }
        todo := todo - {i};
      }
      return None;
    }

    method CreatePendingUser(name: string, token: Token) returns (ok: bool)
      modifies this
      ensures ok == !Taken(old(Value()), name)
      ensures Value() == AfterCreatePending(old(Value()), name, token)
    {
      ok := !Taken(Value(), name);
      if ok {
        users := users[nextId := NewPending(name, token)];
        nextId := nextId + 1;
      }
    }

    method InsertUser(u: User) returns (id: Option<nat>)
      modifies this
      ensures id == if Taken(old(Value()), u.username) then None else Some(old(nextId))
      ensures Value() == AfterInsertUser(old(Value()), u)
    {
      if Taken(Value(), u.username) {
        return None;
      }
      id := Some(nextId);
      users := users[nextId := u];
      nextId := nextId + 1;
    }

    method ResetInviteToken(id: nat, token: Token) returns (ok: bool)
      modifies this
      ensures ok == (id in old(users) && old(users)[id].status.Pending?)
      ensures Value() == AfterResetInvite(old(Value()), id, token)
    {
      ok := id in users && users[id].status.Pending?;
      if ok {
        users := users[id := users[id].(invite := Some(token))];
      }
    }

    method DeleteUser(id: nat) returns (ok: bool)
      modifies this
      ensures ok == (id in old(users))
      ensures Value() == AfterDeleteUser(old(Value()), id)
    {
      ok := id in users;
      if ok {
        ghost var before := Value();
        users := users - {id};
        sessions := map t | t in sessions && sessions[t].userId != id :: sessions[t];
        assert sessions == AfterDeleteUser(before, id).sessions;
      }
    }

    method ActivateUser(id: nat, u: User) returns (ok: bool)
      modifies this
      ensures ok == (id in old(users) && old(users)[id].status.Pending?)
      ensures Value() == AfterActivate(old(Value()), id, u)
    {
      ok := id in users && users[id].status.Pending?;
      if ok {
        users := users[id := u.(username := users[id].username, status := Active, invite := None)];
      }
    }

    method SetDisabled(id: nat)
      modifies this
      ensures Value() == AfterDisable(old(Value()), id)
    {
      if id in users {
        users := users[id := users[id].(status := Status.Disabled)];
      }
    }

    /** Succeeds only on the revision the client started from. */
    method UpdateVault(id: nat, base: int, blob: Bytes, nonce: Bytes, key: Option<Bytes>, keyRecov: Option<Bytes>)
      returns (revision: Option<int>)
      modifies this
      ensures revision == if VaultMatches(old(Value()), id, base) then Some(base + 1) else None
      ensures Value() == AfterUpdateVault(old(Value()), id, base, blob, nonce, key, keyRecov)
    {
      if id !in users || users[id].revision != base {
        return None;
      }
      var u := users[id];
      users := users[id := u.(blob := Some(blob), nonce := Some(nonce), keyWrapped := Coalesce(key, u.keyWrapped),
        keyWrappedRecov := Coalesce(keyRecov, u.keyWrappedRecov), revision := u.revision + 1)];
      return Some(base + 1);
    }

    /** One transaction: both statements or none. */
    method UpdateAuthMaterial(id: nat, m: Material, burnRecovery: bool)
      modifies this
      ensures Value() == AfterUpdateAuth(old(Value()), id, m, burnRecovery)
    {
      if id in users {
        ghost var before := Value();
        users := users[id := Rekeyed(users[id], m)];
        if burnRecovery {
          sessions := map t | t in sessions && sessions[t].userId != id :: sessions[t];
          assert sessions == AfterUpdateAuth(before, id, m, true).sessions;
        }
      }
    }

    method CreateSession(id: nat, token: Token, expires: int) returns (ok: bool)
      modifies this
      ensures ok == (id in old(users) && token !in old(sessions))
      ensures Value() == AfterCreateSession(old(Value()), id, token, expires)
    {
      ok := id in users && token !in sessions;
      if ok {
        sessions := sessions[token := Session(id, expires)];
      }
    }

    method GetUserBySessionToken(token: Token, now: int) returns (id: Option<nat>)
      modifies this
      ensures id == LiveUser(old(Value()), token, now)
      ensures Value() == AfterLookup(old(Value()), token, now)
    {
      if token !in sessions {
        assert sessions == AfterDeleteSession(Value(), token).sessions;
        return None;
      }
      if now > sessions[token].expires {
        DeleteSession(token);
        return None;
      }
      return Some(sessions[token].userId);
    }

    method DeleteSession(token: Token)
      modifies this
      ensures Value() == AfterDeleteSession(old(Value()), token)
    {
      ghost var before := Value();
      sessions := sessions - {token};
      assert sessions == AfterDeleteSession(before, token).sessions;
    }

    method DeleteAllSessions(id: nat)
      modifies this
      ensures Value() == AfterDeleteAll(old(Value()), id)
    {
      ghost var before := Value();
      sessions := map t | t in sessions && sessions[t].userId != id :: sessions[t];
      assert sessions == AfterDeleteAll(before, id).sessions;
    }

    method DeleteOtherSessions(id: nat, token: Token)
      modifies this
      ensures Value() == AfterDeleteOthers(old(Value()), id, token)
    {
      ghost var before := Value();
      sessions := map t | t in sessions && !(sessions[t].userId == id && t != token) :: sessions[t];
      assert sessions == AfterDeleteOthers(before, id, token).sessions;
    }
  }

  class Handlers {
    const cfg: Config
    const store: Database

    constructor (c: Config, s: Database)
      ensures cfg == c && store == s
    {
      cfg, store := c, s;
    }

    method CompleteSession(id: nat, token: Token, now: int) returns (reply: Reply)
      modifies store
      ensures (store.Value(), reply) == StartSession(cfg, old(store.Value()), id, token, now)
    {
      var ok := store.CreateSession(id, token, now + cfg.sessionTtl);
      reply := if ok then SessionStarted(token, id) else Failed("internal");
    }

    method Setup(q: Request, now: int) returns (reply: Reply)
      requires q.Setup? && Sound(store.Value())
      modifies store
      ensures (store.Value(), reply) == HandleSetup(cfg, old(store.Value()), now, q)
    {
      var error := SetupError(cfg, q.username, q.material, q.blob, q.nonce);
      if error.Some? {
        return Failed(error.value);
      }
      var u := NewUser(q.username, MaterialOf(q.material), q.blob.bytes, q.nonce.bytes);
      var existing := store.GetUserByUsername(q.username);
      if q.invite != "" {
        if existing.None? || !store.users[existing.value].status.Pending? {
          return Failed("not_pending");
        }
        if store.users[existing.value].invite != Some(q.invite) {
          return Failed("bad_invite");
        }
        var ok := store.ActivateUser(existing.value, u);
        reply := CompleteSession(existing.value, q.token, now);
      } else {
        if !cfg.allowRegistration {
          return Failed("registration_disabled");
        }
        if existing.Some? {
          return Failed("username_taken");
        }
        var id := store.InsertUser(u);
        reply := CompleteSession(id.value, q.token, now);
      }
    }

    method Login(q: Request, now: int) returns (reply: Reply)
      requires q.Login? && Sound(store.Value())
      modifies store
      ensures (store.Value(), reply) == HandleLogin(cfg, old(store.Value()), now, q)
    {
      var found := store.GetUserByUsername(q.username);
      if found.None? {
        return Failed("bad_credentials");
      }
      var u := store.users[found.value];
      if u.status.Pending? {
        return Failed("pending");
      }
      if !u.status.Active? {
        return Failed("disabled");
      }
      if !Verifies(u.authHash, q.authHash) {
        return Failed("bad_credentials");
      }
      reply := CompleteSession(found.value, q.token, now);
    }

    method Recover(q: Request, now: int) returns (reply: Reply)
      requires q.Recover? && Sound(store.Value())
      modifies store
      ensures (store.Value(), reply) == HandleRecover(cfg, old(store.Value()), now, q)
    {
      var found := store.GetUserByUsername(q.username);
      if found.None? || !Verifies(store.users[found.value].recoveryHash, q.recoveryHash) {
        return Failed("bad_recovery");
      }
      var parsed := ParseMaterial(cfg, q.material);
      if parsed.Refused? {
        return Failed(parsed.code);
      }
      store.UpdateAuthMaterial(found.value, parsed.material, true);
      reply := CompleteSession(found.value, q.token, now);
    }

    /** The authed middleware followed by the handler it guards. */
    method Serve(q: Request, bearer: Token, now: int) returns (reply: Reply)
      requires Sound(store.Value())
      modifies store
      ensures (store.Value(), reply) == HandleAuthed(cfg, old(store.Value()), now, bearer, q)
    {
      if bearer == "" {
        return Failed("no_session");
      }
      var live := store.GetUserBySessionToken(bearer, now);
      if live.None? {
        return Failed("bad_session");
      }
      if live.value !in store.users || !store.users[live.value].status.Active? {
        return Failed("inactive");
      }
      reply := Dispatch(q, bearer, live.value);
    }

    method Dispatch(q: Request, bearer: Token, id: nat) returns (reply: Reply)
      requires id in store.users
      modifies store
      ensures (store.Value(), reply) == Guarded(cfg, old(store.Value()), id, bearer, q)
    {
      match q
      case Logout(_) =>
        store.DeleteSession(bearer);
        reply := Done;
      case LogoutAll(_) =>
        store.DeleteAllSessions(id);
        reply := Done;
      case ChangePassword(_, _, _) =>
        reply := ChangePassword(q, id);
      case VaultGet(_) =>
        reply := Payload(store.users[id]);
      case VaultPut(_, _, _, _, _, _) =>
        reply := VaultPut(q, id);
      case _ =>
        reply := Done;
    }

    method ChangePassword(q: Request, id: nat) returns (reply: Reply)
      requires q.ChangePassword? && id in store.users
      modifies store
      ensures (store.Value(), reply) == HandleChangePassword(cfg, old(store.Value()), id, q)
    {
      if !Verifies(store.users[id].authHash, q.oldHash) {
        return Failed("bad_old_password");
      }
      var parsed := ParseMaterial(cfg, q.material);
      if parsed.Refused? {
        return Failed(parsed.code);
      }
      store.UpdateAuthMaterial(id, parsed.material, false);
      store.DeleteOtherSessions(id, q.bearer);
      reply := Done;
    }

    method VaultPut(q: Request, id: nat) returns (reply: Reply)
      requires q.VaultPut?
      modifies store
      ensures (store.Value(), reply) == HandleVaultPut(old(store.Value()), id, q)
    {
      if !Present(q.blob) {
        return Failed("bad_blob");
      }
      if !Present(q.nonce) {
        return Failed("bad_nonce");
      }
      if q.key.Some? && q.key.value.Undecodable? {
        return Failed("bad_wrapped_key");
      }
      if q.keyRecov.Some? && q.keyRecov.value.Undecodable? {
        return Failed("bad_wrapped_recov");
      }
      var key, keyRecov := OptionalBytes(q.key), OptionalBytes(q.keyRecov);
      var revision := store.UpdateVault(id, q.base, q.blob.bytes, q.nonce.bytes, key, keyRecov);
      if revision.None? {
        return Failed("revision_conflict");
      }
      reply := Revision(revision.value);
    }
  }
}
