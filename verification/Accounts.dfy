/**
 * The account and session state machine of the handlers, one whole handler per step, and what every
 * run of it keeps.
 */
module Accounts {
  import opened Options
  import opened LittleEndian
  import opened Store

  datatype Config = Config(allowRegistration: bool, maxKdfMemoryMB: nat, maxKdfIterations: nat, sessionTtl: int)

  const UINT32: nat := 0x1_0000_0000

  /** Anti-DoS limits; the iteration limit is cast to 32 bits before it is compared. */
  predicate ValidateKdf(cfg: Config, k: Kdf) {
    && (if k.algorithm == "argon2id" then
          && k.memoryKiB != 0 && k.iterations != 0 && k.parallelism != 0
          && k.memoryKiB <= cfg.maxKdfMemoryMB * 1024 && k.parallelism <= 16
        else k.algorithm == "pbkdf2-sha256" && k.iterations != 0)
    && k.iterations <= cfg.maxKdfIterations % UINT32
  }

  /** A Base64 field of a request once decoded. */
  datatype Field = Undecodable | Raw(bytes: Bytes)

  predicate Present(f: Field) {
    f.Raw? && f.bytes != []
  }

  datatype Recovery = Recovery(hash: Field, keyWrapped: Field)

  /** `recovery` is absent when the recovery-hash field is the empty string. */
  datatype MaterialInput = MaterialInput(
    kdf: Kdf, authHash: Field, salt: Field, keyWrapped: Field, recovery: Option<Recovery>)

  datatype Parsed = Accepted(material: Material) | Refused(code: string)

  function RecoveryError(r: Option<Recovery>): Option<string> {
    if r.None? then None
    else if r.value.hash.Undecodable? then Some("bad_recovery_hash")
    else if !Present(r.value.keyWrapped) then Some("bad_wrapped_recov")
    else None
  }

  function KeysError(cfg: Config, m: MaterialInput): Option<string> {
    if !ValidateKdf(cfg, m.kdf) then Some("bad_kdf")
    else if !Present(m.authHash) then Some("bad_auth_hash")
    else if !Present(m.salt) then Some("bad_salt")
    else if !Present(m.keyWrapped) then Some("bad_wrapped_key")
    else None
  }

  function MaterialOf(m: MaterialInput): Material
    requires Present(m.authHash) && Present(m.salt) && Present(m.keyWrapped) && RecoveryError(m.recovery).None?
  {
    Material(m.kdf, m.salt.bytes, m.authHash.bytes, m.keyWrapped.bytes,
      if m.recovery.Some? then Some(m.recovery.value.hash.bytes) else None,
      if m.recovery.Some? then Some(m.recovery.value.keyWrapped.bytes) else None)
  }

  /** parseAuthMaterial. */
  function ParseMaterial(cfg: Config, m: MaterialInput): (p: Parsed)
    ensures p.Accepted? ==> p.material.recoveryHash.Some? == p.material.keyWrappedRecov.Some?
    ensures p.Accepted? ==> p.material.authHash != [] && p.material.salt != [] && p.material.keyWrapped != []
    ensures p.Accepted? && p.material.keyWrappedRecov.Some? ==> p.material.keyWrappedRecov.value != []
  {
    var keys, recovery := KeysError(cfg, m), RecoveryError(m.recovery);
    if keys.Some? then Refused(keys.value)
    else if recovery.Some? then Refused(recovery.value)
    else Accepted(MaterialOf(m))
  }

  // ---- requests and replies ----

  datatype Request =
    | Setup(username: string, invite: Token, material: MaterialInput, blob: Field, nonce: Field, token: Token)
    | Login(username: string, authHash: Field, token: Token)
    | Logout(bearer: Token)
    | LogoutAll(bearer: Token)
    | ChangePassword(bearer: Token, oldHash: Field, material: MaterialInput)
    | Recover(username: string, recoveryHash: Field, material: MaterialInput, token: Token)
    | RecoverPayload(username: string, recoveryHash: Field)
    | VaultGet(bearer: Token)
    | VaultPut(bearer: Token, base: int, blob: Field, nonce: Field, key: Option<Field>, keyRecov: Option<Field>)
    | CreateUser(username: string, token: Token, overHttp: bool)
    | DeleteUser(id: nat)
    | ResetInvite(id: nat, token: Token)
    | Disable(username: string)

  datatype Reply =
    | Failed(code: string)
    | SessionStarted(token: Token, userId: nat)
    | Done
    | Payload(user: User)
    | Revision(revision: int)
    | Invited(token: Token)

  ghost function Find(db: Db, name: string): (r: Option<nat>)
    ensures r.Some? ==> r.value in db.users && db.users[r.value].username == name
    ensures r.None? ==> !Taken(db, name)
  {
    if i :| i in db.users && db.users[i].username == name then Some(i) else None
  }

  predicate Verifies(stored: Option<Bytes>, sent: Field) {
    stored.Some? && sent.Raw? && stored.value == sent.bytes
  }

  function SetupError(cfg: Config, username: string, m: MaterialInput, blob: Field, nonce: Field): Option<string> {
    if username == "" || |username| > 128 then Some("bad_username")
    else if KeysError(cfg, m).Some? then KeysError(cfg, m)
    else if !Present(blob) then Some("bad_blob")
    else if !Present(nonce) then Some("bad_nonce")
    else RecoveryError(m.recovery)
  }

  /** The row handleSetup builds, at revision 1. */
  function NewUser(username: string, m: Material, blob: Bytes, nonce: Bytes): User {
    User(username, Active, None, m.kdf, Some(m.salt), Some(m.authHash), m.recoveryHash, Some(m.keyWrapped),
      m.keyWrappedRecov, Some(blob), Some(nonce), 1)
  }

  /** completeSession. */
  function StartSession(cfg: Config, db: Db, id: nat, token: Token, now: int): (Db, Reply) {
    if id in db.users && token !in db.sessions then
      (AfterCreateSession(db, id, token, now + cfg.sessionTtl), SessionStarted(token, id))
    else (db, Failed("internal"))
  }

  /** The authed middleware: the user a handler acts for, or the code it is refused with. */
  function Authed(db: Db, bearer: Token, now: int): (r: Option<nat>) {
    var u := LiveUser(db, bearer, now);
    if bearer != "" && u.Some? && u.value in db.users && db.users[u.value].status.Active? then u else None
  }

  function AuthError(db: Db, bearer: Token, now: int): string {
    if bearer == "" then "no_session" else if LiveUser(db, bearer, now).None? then "bad_session" else "inactive"
  }

  /** What looking the bearer token up leaves behind. */
  function Visited(db: Db, bearer: Token, now: int): Db {
    if bearer == "" then db else AfterLookup(db, bearer, now)
  }

  ghost function HandleSetup(cfg: Config, db: Db, now: int, q: Request): (Db, Reply)
    requires q.Setup?
  {
    var error := SetupError(cfg, q.username, q.material, q.blob, q.nonce);
    if error.Some? then (db, Failed(error.value))
    else
      var u := NewUser(q.username, MaterialOf(q.material), q.blob.bytes, q.nonce.bytes);
      var existing := Find(db, q.username);
      if q.invite != "" then
        if existing.None? || !db.users[existing.value].status.Pending? then (db, Failed("not_pending"))
        else if db.users[existing.value].invite != Some(q.invite) then (db, Failed("bad_invite"))
        else StartSession(cfg, AfterActivate(db, existing.value, u), existing.value, q.token, now)
      else if !cfg.allowRegistration then (db, Failed("registration_disabled"))
      else if existing.Some? then (db, Failed("username_taken"))
      else StartSession(cfg, AfterInsertUser(db, u), db.nextId, q.token, now)
  }

  ghost function HandleLogin(cfg: Config, db: Db, now: int, q: Request): (Db, Reply)
    requires q.Login?
  {
    var found := Find(db, q.username);
    if found.None? then (db, Failed("bad_credentials"))
    else
      var u := db.users[found.value];
      if u.status.Pending? then (db, Failed("pending"))
      else if !u.status.Active? then (db, Failed("disabled"))
      else if !Verifies(u.authHash, q.authHash) then (db, Failed("bad_credentials"))
      else StartSession(cfg, db, found.value, q.token, now)
  }

  ghost function HandleChangePassword(cfg: Config, db: Db, id: nat, q: Request): (Db, Reply)
    requires q.ChangePassword? && id in db.users
  {
    if !Verifies(db.users[id].authHash, q.oldHash) then (db, Failed("bad_old_password"))
    else match ParseMaterial(cfg, q.material)
      case Refused(code) => (db, Failed(code))
      case Accepted(m) => (AfterDeleteOthers(AfterUpdateAuth(db, id, m, false), id, q.bearer), Done)
  }

  ghost function HandleRecover(cfg: Config, db: Db, now: int, q: Request): (Db, Reply)
    requires q.Recover?
  {
    var found := Find(db, q.username);
    if found.None? || !Verifies(db.users[found.value].recoveryHash, q.recoveryHash) then (db, Failed("bad_recovery"))
    else match ParseMaterial(cfg, q.material)
      case Refused(code) => (db, Failed(code))
      case Accepted(m) => StartSession(cfg, AfterUpdateAuth(db, found.value, m, true), found.value, q.token, now)
  }

  ghost function HandleRecoverPayload(db: Db, q: Request): (Db, Reply)
    requires q.RecoverPayload?
  {
    var found := Find(db, q.username);
    if found.None? || !Verifies(db.users[found.value].recoveryHash, q.recoveryHash) then (db, Failed("bad_recovery"))
    else if db.users[found.value].keyWrappedRecov.None? then (db, Failed("no_recovery"))
    else (db, Payload(db.users[found.value]))
  }

  function OptionalBytes(f: Option<Field>): Option<Bytes> {
    if f.Some? && f.value.Raw? then Some(f.value.bytes) else None
  }

  function HandleVaultPut(db: Db, id: nat, q: Request): (Db, Reply)
    requires q.VaultPut?
  {
    if !Present(q.blob) then (db, Failed("bad_blob"))
    else if !Present(q.nonce) then (db, Failed("bad_nonce"))
    else if q.key.Some? && q.key.value.Undecodable? then (db, Failed("bad_wrapped_key"))
    else if q.keyRecov.Some? && q.keyRecov.value.Undecodable? then (db, Failed("bad_wrapped_recov"))
    else if !VaultMatches(db, id, q.base) then (db, Failed("revision_conflict"))
    else
      var key, keyRecov := OptionalBytes(q.key), OptionalBytes(q.keyRecov);
      (AfterUpdateVault(db, id, q.base, q.blob.bytes, q.nonce.bytes, key, keyRecov), Revision(q.base + 1))
  }

  /** The handlers behind the authed middleware, for the user it found. */
  ghost function Guarded(cfg: Config, db: Db, id: nat, bearer: Token, q: Request): (Db, Reply)
    requires id in db.users
  {
    match q
    case Logout(_) => (AfterDeleteSession(db, bearer), Done)
    case LogoutAll(_) => (AfterDeleteAll(db, id), Done)
    case ChangePassword(_, _, _) => HandleChangePassword(cfg, db, id, q)
    case VaultGet(_) => (db, Payload(db.users[id]))
    case VaultPut(_, _, _, _, _, _) => HandleVaultPut(db, id, q)
    case _ => (db, Done)
  }

  ghost function HandleAuthed(cfg: Config, db: Db, now: int, bearer: Token, q: Request): (Db, Reply) {
    var d := Visited(db, bearer, now);
    var id := Authed(db, bearer, now);
    if id.None? || id.value !in d.users then (d, Failed(AuthError(db, bearer, now)))
    else Guarded(cfg, d, id.value, bearer, q)
  }

  ghost function Handle(cfg: Config, db: Db, now: int, q: Request): (Db, Reply) {
    match q
    case Setup(_, _, _, _, _, _) => HandleSetup(cfg, db, now, q)
    case Login(_, _, _) => HandleLogin(cfg, db, now, q)
    case Recover(_, _, _, _) => HandleRecover(cfg, db, now, q)
    case RecoverPayload(_, _) => HandleRecoverPayload(db, q)
    case CreateUser(name, token, overHttp) =>
      if overHttp && (name == "" || |name| > 128) then (db, Failed("bad_username"))
      else if Taken(db, name) then (db, Failed("username_taken"))
      else (AfterCreatePending(db, name, token), Invited(token))
    case DeleteUser(id) => if id in db.users then (AfterDeleteUser(db, id), Done) else (db, Failed("not_found"))
    case ResetInvite(id, token) =>
      if id !in db.users then (db, Failed("not_found"))
      else if !db.users[id].status.Pending? then (db, Failed("not_pending"))
      else (AfterResetInvite(db, id, token), Invited(token))
    case Disable(name) =>
      var found := Find(db, name);
      if found.None? then (db, Failed("not_found")) else (AfterDisable(db, found.value), Done)
    case _ => HandleAuthed(cfg, db, now, q.bearer, q)
  }

  // ---- the invariant of every run ----

  predicate Filled(column: Option<Bytes>) {
    column.Some? && column.value != []
  }

  /** The two wrapped copies of the vault key need only be present: see KeysHeldExactlyWhen. */
  predicate Complete(u: User) {
    Filled(u.salt) && Filled(u.authHash) && Filled(u.blob) && Filled(u.nonce) && u.keyWrapped.Some?
  }

  predicate RowValid(u: User) {
    && (u.status.Active? ==> Complete(u) && u.invite.None? && u.revision >= 1)
    && (u.status.Pending? ==> u.invite.Some? && u.revision == 0 && u.recoveryHash.None?)
    && (u.recoveryHash.Some? ==> u.keyWrappedRecov.Some?)
  }

  /** `issued` is the history of all session tokens ever handed out. */
  ghost predicate Inv(db: Db, issued: set<Token>) {
    && Sound(db)
    && (forall i | i in db.users :: RowValid(db.users[i]))
    && (forall t | t in db.sessions :: t in issued && t != "" && !db.users[db.sessions[t].userId].status.Pending?)
  }

  /** The session token a request would start a session with. */
  function Offered(q: Request): set<Token> {
    if q.Setup? || q.Login? || q.Recover? then {q.token} else {}
  }

  /** Random tokens never repeat and are never empty. */
  predicate FreshTokens(q: Request, issued: set<Token>) {
    Offered(q) !! issued && "" !in Offered(q)
  }

  lemma StartSessionInv(cfg: Config, db: Db, id: nat, token: Token, now: int, issued: set<Token>)
    requires Inv(db, issued) && token !in issued && token != "" && id in db.users && !db.users[id].status.Pending?
    ensures Inv(StartSession(cfg, db, id, token, now).0, issued + {token})
  {
  }

  lemma InsertInv(db: Db, u: User, issued: set<Token>)
    requires Inv(db, issued) && !Taken(db, u.username) && RowValid(u)
    ensures Inv(Insert(db, u), issued)
  {
    var d := Insert(db, u);
    forall i, j | i in d.users && j in d.users && d.users[i].username == d.users[j].username
      ensures i == j
    {
    }
  }

  lemma SetUserInv(db: Db, id: nat, u: User, issued: set<Token>)
    requires Inv(db, issued) && id in db.users && RowValid(u) && u.username == db.users[id].username
    requires u.status.Pending? ==> db.users[id].status.Pending?
    ensures Inv(SetUser(db, id, u), issued)
  {
  }

  lemma KeepSessionsInv(db: Db, keep: set<Token>, issued: set<Token>)
    requires Inv(db, issued)
    ensures Inv(KeepSessions(db, keep), issued)
  {
  }

  lemma DeleteUserInv(db: Db, id: nat, issued: set<Token>)
    requires Inv(db, issued)
    ensures Inv(AfterDeleteUser(db, id), issued)
  {
  }

  lemma VisitedInv(db: Db, bearer: Token, now: int, issued: set<Token>)
    requires Inv(db, issued)
    ensures Inv(Visited(db, bearer, now), issued)
    ensures Visited(db, bearer, now).users == db.users
  {
    KeepSessionsInv(db, db.sessions.Keys - {bearer}, issued);
  }

  lemma MoreIssued(db: Db, issued: set<Token>, more: set<Token>)
    requires Inv(db, issued)
    ensures Inv(db, issued + more)
  {
  }

  lemma SetupInv(cfg: Config, db: Db, now: int, q: Request, issued: set<Token>)
    requires Inv(db, issued) && q.Setup? && FreshTokens(q, issued)
    ensures Inv(HandleSetup(cfg, db, now, q).0, issued + Offered(q))
  {
    MoreIssued(db, issued, Offered(q));
    if SetupError(cfg, q.username, q.material, q.blob, q.nonce).None? {
      var u := NewUser(q.username, MaterialOf(q.material), q.blob.bytes, q.nonce.bytes);
      var existing := Find(db, q.username);
      if q.invite != "" {
        if existing.Some? && db.users[existing.value].status.Pending? {
          var row := u.(username := db.users[existing.value].username, status := Active, invite := None);
          SetUserInv(db, existing.value, row, issued);
          StartSessionInv(cfg, AfterActivate(db, existing.value, u), existing.value, q.token, now, issued);
        }
      } else if existing.None? {
        InsertInv(db, u, issued);
        StartSessionInv(cfg, Insert(db, u), db.nextId, q.token, now, issued);
      }
    }
  }

  lemma UpdateAuthInv(db: Db, id: nat, m: Material, burn: bool, issued: set<Token>)
    requires Inv(db, issued) && id in db.users && !db.users[id].status.Pending?
    requires m.recoveryHash.Some? ==> m.keyWrappedRecov.Some?
    requires m.authHash != [] && m.salt != []
    ensures Inv(AfterUpdateAuth(db, id, m, burn), issued)
  {
    SetUserInv(db, id, Rekeyed(db.users[id], m), issued);
    KeepSessionsInv(SetUser(db, id, Rekeyed(db.users[id], m)), db.sessions.Keys - SessionsOf(db, id), issued);
  }

  lemma RecoverInv(cfg: Config, db: Db, now: int, q: Request, issued: set<Token>)
    requires Inv(db, issued) && q.Recover? && FreshTokens(q, issued)
    ensures Inv(HandleRecover(cfg, db, now, q).0, issued + Offered(q))
  {
    MoreIssued(db, issued, Offered(q));
    var found, parsed := Find(db, q.username), ParseMaterial(cfg, q.material);
    if found.Some? && Verifies(db.users[found.value].recoveryHash, q.recoveryHash) && parsed.Accepted? {
      UpdateAuthInv(db, found.value, parsed.material, true, issued);
      StartSessionInv(cfg, AfterUpdateAuth(db, found.value, parsed.material, true), found.value, q.token, now, issued);
    }
  }

  lemma AuthedInv(cfg: Config, db: Db, now: int, bearer: Token, q: Request, issued: set<Token>)
    requires Inv(db, issued)
    ensures Inv(HandleAuthed(cfg, db, now, bearer, q).0, issued)
  {
    hide Inv, LiveUser, AfterUpdateAuth, AfterDeleteOthers, AfterDeleteAll, AfterDeleteSession;
    hide HandleVaultPut, ParseMaterial;
    var d, id := Visited(db, bearer, now), Authed(db, bearer, now);
    VisitedInv(db, bearer, now, issued);
    if id.Some? && id.value in d.users {
      match q
      case Logout(_) => LogoutInv(d, bearer, id.value, issued);
      case LogoutAll(_) => LogoutInv(d, bearer, id.value, issued);
      case ChangePassword(_, _, _) =>
        ChangePasswordInv(cfg, d, id.value, q, issued);
      case VaultPut(_, _, _, _, _, _) =>
        VaultPutInv(d, id.value, q, issued);
      case _ =>
    }
  }

  lemma LogoutInv(db: Db, bearer: Token, id: nat, issued: set<Token>)
    requires Inv(db, issued)
    ensures Inv(AfterDeleteSession(db, bearer), issued) && Inv(AfterDeleteAll(db, id), issued)
  {
    KeepSessionsInv(db, db.sessions.Keys - {bearer}, issued);
    KeepSessionsInv(db, db.sessions.Keys - SessionsOf(db, id), issued);
  }

  lemma ChangePasswordInv(cfg: Config, db: Db, id: nat, q: Request, issued: set<Token>)
    requires Inv(db, issued) && id in db.users && db.users[id].status.Active? && q.ChangePassword?
    ensures Inv(HandleChangePassword(cfg, db, id, q).0, issued)
  {
    var parsed := ParseMaterial(cfg, q.material);
    if parsed.Accepted? {
      var e := AfterUpdateAuth(db, id, parsed.material, false);
      UpdateAuthInv(db, id, parsed.material, false, issued);
      KeepSessionsInv(e, e.sessions.Keys - (SessionsOf(e, id) - {q.bearer}), issued);
    }
  }

  lemma VaultPutInv(db: Db, id: nat, q: Request, issued: set<Token>)
    requires Inv(db, issued) && id in db.users && db.users[id].status.Active? && q.VaultPut?
    ensures Inv(HandleVaultPut(db, id, q).0, issued)
  {
    if HandleVaultPut(db, id, q).1.Revision? {
      SetUserInv(db, id, HandleVaultPut(db, id, q).0.users[id], issued);
    }
  }

  /** Every handler keeps the invariant. */
  lemma StepInv(cfg: Config, db: Db, now: int, q: Request, issued: set<Token>)
    requires Inv(db, issued) && FreshTokens(q, issued)
    ensures Inv(Handle(cfg, db, now, q).0, issued + Offered(q))
  {
    hide HandleSetup, HandleRecover, HandleAuthed, Inv;
    MoreIssued(db, issued, Offered(q));
    assert issued + {} == issued;
    match q
    case Setup(_, _, _, _, _, _) => SetupInv(cfg, db, now, q, issued);
    case Login(_, _, _) => LoginInv(cfg, db, now, q, issued);
    case Recover(_, _, _, _) => RecoverInv(cfg, db, now, q, issued);
    case RecoverPayload(_, _) =>
    case CreateUser(name, token, _) =>
      if !Taken(db, name) {
        InsertInv(db, NewPending(name, token), issued);
      }
    case DeleteUser(id) => DeleteUserInv(db, id, issued);
    case ResetInvite(id, token) => ResetInv(db, id, token, issued);
    case Disable(name) => DisableInv(db, name, issued);
    case _ => AuthedInv(cfg, db, now, q.bearer, q, issued);
  }

  lemma LoginInv(cfg: Config, db: Db, now: int, q: Request, issued: set<Token>)
    requires Inv(db, issued) && q.Login? && FreshTokens(q, issued)
    ensures Inv(HandleLogin(cfg, db, now, q).0, issued + Offered(q))
  {
    MoreIssued(db, issued, Offered(q));
    var found := Find(db, q.username);
    if found.Some? && db.users[found.value].status.Active? {
      StartSessionInv(cfg, db, found.value, q.token, now, issued);
    }
  }

  lemma ResetInv(db: Db, id: nat, token: Token, issued: set<Token>)
    requires Inv(db, issued)
    ensures Inv(AfterResetInvite(db, id, token), issued)
  {
    if id in db.users && db.users[id].status.Pending? {
      SetUserInv(db, id, db.users[id].(invite := Some(token)), issued);
    }
  }

  lemma DisableInv(db: Db, name: string, issued: set<Token>)
    requires Inv(db, issued)
    ensures var found := Find(db, name); found.Some? ==> Inv(AfterDisable(db, found.value), issued)
  {
    var found := Find(db, name);
    if found.Some? {
      SetUserInv(db, found.value, db.users[found.value].(status := Disabled), issued);
    }
  }

  // ---- the two wrapped copies of the vault key ----

  /** The vault key is stored wrapped under the password and, for users with a recovery hash, under the recovery key. */
  datatype Wrapping = UnderPassword | UnderRecoveryKey

  predicate Needs(u: User, w: Wrapping) {
    match w
    case UnderPassword => u.status.Active?
    case UnderRecoveryKey => u.recoveryHash.Some?
  }

  function StoredKey(u: User, w: Wrapping): Option<Bytes> {
    match w
    case UnderPassword => u.keyWrapped
    case UnderRecoveryKey => u.keyWrappedRecov
  }

  ghost predicate KeysHeld(db: Db, w: Wrapping) {
    forall i | i in db.users && Needs(db.users[i], w) :: Filled(StoredKey(db.users[i], w))
  }

  function SentKey(q: Request, w: Wrapping): Option<Field>
    requires q.VaultPut?
  {
    match w
    case UnderPassword => q.key
    case UnderRecoveryKey => q.keyRecov
  }

  predicate Decodable(f: Option<Field>) {
    f.Some? ==> f.value.Raw?
  }

  /** What handleVaultPut and the middleware before it check, in the state the request finds. */
  predicate PassesVaultChecks(db: Db, now: int, q: Request)
    requires q.VaultPut?
  {
    var id := Authed(db, q.bearer, now);
    && id.Some? && Present(q.blob) && Present(q.nonce) && Decodable(q.key) && Decodable(q.keyRecov)
    && VaultMatches(db, id.value, q.base)
  }

  /** A vault write that passes all checks although the field of a key its user needs decodes to no bytes. */
  predicate EmptiesKey(db: Db, now: int, q: Request, w: Wrapping) {
    && q.VaultPut? && SentKey(q, w) == Some(Raw([])) && PassesVaultChecks(db, now, q)
    && Needs(db.users[Authed(db, q.bearer, now).value], w)
  }

  lemma VaultPutKeepsKeys(db: Db, id: nat, q: Request, w: Wrapping)
    requires id in db.users && q.VaultPut? && KeysHeld(db, w)
    ensures KeysHeld(HandleVaultPut(db, id, q).0, w) <==>
            !(HandleVaultPut(db, id, q).1.Revision? && SentKey(q, w) == Some(Raw([])) && Needs(db.users[id], w))
  {
    var d := HandleVaultPut(db, id, q).0;
    if HandleVaultPut(db, id, q).1.Revision? {
      assert d.users.Keys == db.users.Keys && Needs(d.users[id], w) == Needs(db.users[id], w);
    }
  }

  lemma VaultPutAccepted(db: Db, id: nat, q: Request)
    requires q.VaultPut?
    ensures HandleVaultPut(db, id, q).1.Revision? <==>
              Present(q.blob) && Present(q.nonce) && Decodable(q.key) && Decodable(q.keyRecov)
                && VaultMatches(db, id, q.base)
  {
  }

  lemma SetupKeepsKeys(cfg: Config, db: Db, now: int, q: Request, issued: set<Token>, w: Wrapping)
    requires Inv(db, issued) && q.Setup? && KeysHeld(db, w)
    ensures KeysHeld(HandleSetup(cfg, db, now, q).0, w)
  {
  }

  /** Of the other requests, only changing and recovering a password write a wrapped key. */
  lemma RestKeepsKeys(cfg: Config, db: Db, now: int, q: Request, w: Wrapping)
    requires KeysHeld(db, w) && !q.Setup? && !q.VaultPut?
    ensures KeysHeld(Handle(cfg, db, now, q).0, w)
  {
    hide LiveUser, RecoveryError, KeysError;
  }

  /** No needed wrapped key is empty after a request, exactly when the request is not such a vault write. */
  lemma KeysHeldExactlyWhen(cfg: Config, db: Db, now: int, q: Request, issued: set<Token>, w: Wrapping)
    requires Inv(db, issued) && FreshTokens(q, issued) && KeysHeld(db, w)
    ensures KeysHeld(Handle(cfg, db, now, q).0, w) <==> !EmptiesKey(db, now, q, w)
  {
    hide HandleSetup, Sound, ParseMaterial, HandleVaultPut;
    if q.Setup? {
      SetupKeepsKeys(cfg, db, now, q, issued, w);
    } else if q.VaultPut? {
      var d, id := Visited(db, q.bearer, now), Authed(db, q.bearer, now);
      VisitedInv(db, q.bearer, now, issued);
      if id.Some? && id.value in d.users {
        VaultPutKeepsKeys(d, id.value, q, w);
        VaultPutAccepted(d, id.value, q);
      }
    } else {
      RestKeepsKeys(cfg, db, now, q, w);
    }
  }
}
