/**
 * The users and sessions tables of store.go. Each SQL statement is one atomic step on a pair of maps,
 * with the UNIQUE, foreign-key and AUTOINCREMENT rules of the schema. Tokens stand for their SHA-256
 * hashes, and user names are already trimmed.
 */
module Store {
  import opened Options
  import opened LittleEndian

  datatype Status = Pending | Active | Disabled

  datatype Kdf = Kdf(algorithm: string, memoryKiB: nat, iterations: nat, parallelism: nat)

  type Token = string

  datatype User = User(
    username: string, status: Status, invite: Option<Token>, kdf: Kdf,
    salt: Option<Bytes>, authHash: Option<Bytes>, recoveryHash: Option<Bytes>,
    keyWrapped: Option<Bytes>, keyWrappedRecov: Option<Bytes>,
    blob: Option<Bytes>, nonce: Option<Bytes>, revision: int)

  datatype Session = Session(userId: nat, expires: int)

  /** The columns UpdateAuthMaterial writes. */
  datatype Material = Material(
    kdf: Kdf, salt: Bytes, authHash: Bytes, keyWrapped: Bytes,
    recoveryHash: Option<Bytes>, keyWrappedRecov: Option<Bytes>)

  datatype Db = Db(users: map<nat, User>, sessions: map<Token, Session>, nextId: nat)

  /** What the schema guarantees: unique names, ids below the AUTOINCREMENT counter, no orphan session. */
  ghost predicate Sound(db: Db) {
    && (forall i, j | i in db.users && j in db.users && db.users[i].username == db.users[j].username :: i == j)
    && (forall i | i in db.users :: i < db.nextId)
    && (forall t | t in db.sessions :: db.sessions[t].userId in db.users)
  }

  predicate Taken(db: Db, name: string) {
    exists i | i in db.users :: db.users[i].username == name
  }

  const NO_KDF := Kdf("argon2id", 0, 0, 0)

  function NewPending(name: string, token: Token): User {
    User(name, Pending, Some(token), NO_KDF, None, None, None, None, None, None, None, 0)
  }

  function Insert(db: Db, u: User): Db {
    Db(db.users[db.nextId := u], db.sessions, db.nextId + 1)
  }

  function SetUser(db: Db, id: nat, u: User): Db {
    db.(users := db.users[id := u])
  }

  function KeepSessions(db: Db, keep: set<Token>): Db {
    db.(sessions := map t | t in db.sessions && t in keep :: db.sessions[t])
  }

  function SessionsOf(db: Db, id: nat): set<Token> {
    set t | t in db.sessions && db.sessions[t].userId == id
  }

  // ---- the statements ----

  function AfterCreatePending(db: Db, name: string, token: Token): Db {
    if Taken(db, name) then db else Insert(db, NewPending(name, token))
  }

  function AfterInsertUser(db: Db, u: User): Db {
    if Taken(db, u.username) then db else Insert(db, u)
  }

  function AfterResetInvite(db: Db, id: nat, token: Token): Db {
    if id in db.users && db.users[id].status.Pending? then SetUser(db, id, db.users[id].(invite := Some(token))) else db
  }

  /** Sessions go with their user: ON DELETE CASCADE. */
  function AfterDeleteUser(db: Db, id: nat): Db {
    if id in db.users then
      KeepSessions(db.(users := db.users - {id}), db.sessions.Keys - SessionsOf(db, id))
    else db
  }

  /** `u` carries the materials, blob, nonce and revision; name and id are those of the row. */
  function AfterActivate(db: Db, id: nat, u: User): Db {
    if id in db.users && db.users[id].status.Pending? then
      SetUser(db, id, u.(username := db.users[id].username, status := Active, invite := None))
    else db
  }

  function AfterDisable(db: Db, id: nat): Db {
    if id in db.users then SetUser(db, id, db.users[id].(status := Disabled)) else db
  }

  function Coalesce(a: Option<Bytes>, b: Option<Bytes>): Option<Bytes> {
    if a.Some? then a else b
  }

  predicate VaultMatches(db: Db, id: nat, base: int) {
    id in db.users && db.users[id].revision == base
  }

  function AfterUpdateVault(
    db: Db, id: nat, base: int, blob: Bytes, nonce: Bytes, key: Option<Bytes>, keyRecov: Option<Bytes>): Db
  {
    if VaultMatches(db, id, base) then
      var u := db.users[id];
      SetUser(db, id, u.(blob := Some(blob), nonce := Some(nonce), keyWrapped := Coalesce(key, u.keyWrapped),
        keyWrappedRecov := Coalesce(keyRecov, u.keyWrappedRecov), revision := u.revision + 1))
    else db
  }

  function Rekeyed(u: User, m: Material): User {
    u.(kdf := m.kdf, salt := Some(m.salt), authHash := Some(m.authHash), keyWrapped := Some(m.keyWrapped),
       recoveryHash := m.recoveryHash, keyWrappedRecov := m.keyWrappedRecov)
  }

  function AfterUpdateAuth(db: Db, id: nat, m: Material, burn: bool): Db {
    if id in db.users then
      var d := SetUser(db, id, Rekeyed(db.users[id], m));
      if burn then KeepSessions(d, db.sessions.Keys - SessionsOf(db, id)) else d
    else db
  }

  function AfterCreateSession(db: Db, id: nat, token: Token, expires: int): Db {
    if id in db.users && token !in db.sessions then db.(sessions := db.sessions[token := Session(id, expires)]) else db
  }

  function AfterDeleteSession(db: Db, token: Token): Db {
    KeepSessions(db, db.sessions.Keys - {token})
  }

  function AfterDeleteAll(db: Db, id: nat): Db {
    KeepSessions(db, db.sessions.Keys - SessionsOf(db, id))
  }

  function AfterDeleteOthers(db: Db, id: nat, token: Token): Db {
    KeepSessions(db, db.sessions.Keys - (SessionsOf(db, id) - {token}))
  }

  /** The user a session token belongs to; an expired session is removed when it is looked up. */
  function LiveUser(db: Db, token: Token, now: int): Option<nat> {
    if token in db.sessions && now <= db.sessions[token].expires then Some(db.sessions[token].userId) else None
  }

  function AfterLookup(db: Db, token: Token, now: int): Db {
    if LiveUser(db, token, now).None? then AfterDeleteSession(db, token) else db
  }
}
