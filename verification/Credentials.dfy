/**
 * Who gets in: for each handler that checks a secret, exactly which secrets it accepts, and what setting a
 * password, an invite or a session means for the requests that follow.
 */
module Credentials {
  import opened Options
  import opened LittleEndian
  import opened Store
  import opened Accounts
  import opened Sessions

  /** The bytes sent are the bytes stored. */
  predicate SameSecret(stored: Option<Bytes>, sent: Field) {
    sent.Raw? && stored == Some(sent.bytes)
  }

  /** The row of that name. */
  predicate Named(db: Db, i: nat, name: string) {
    i in db.users && db.users[i].username == name
  }

  lemma FindNamed(db: Db, i: nat, name: string)
    requires Sound(db) && Named(db, i, name)
    ensures Find(db, name) == Some(i)
  {
  }

  // ---- authentication material ----

  /** The limits on the key derivation, and material without an empty part. */
  predicate GoodMaterial(cfg: Config, m: MaterialInput) {
    && (|| (m.kdf.algorithm == "argon2id" && 1 <= m.kdf.memoryKiB <= 1024 * cfg.maxKdfMemoryMB
            && 1 <= m.kdf.parallelism <= 16)
        || m.kdf.algorithm == "pbkdf2-sha256")
    && 1 <= m.kdf.iterations <= cfg.maxKdfIterations % 0x1_0000_0000
    && Present(m.authHash) && Present(m.salt) && Present(m.keyWrapped)
    && (m.recovery.Some? ==> m.recovery.value.hash.Raw? && Present(m.recovery.value.keyWrapped))
  }

  /** `u` holds the material sent: the key derivation, the three mandatory parts, and both recovery parts or neither. */
  predicate Carries(u: User, m: MaterialInput) {
    && u.kdf == m.kdf && SameSecret(u.salt, m.salt) && SameSecret(u.authHash, m.authHash)
    && SameSecret(u.keyWrapped, m.keyWrapped)
    && (if m.recovery.Some? then
          SameSecret(u.recoveryHash, m.recovery.value.hash)
          && SameSecret(u.keyWrappedRecov, m.recovery.value.keyWrapped)
        else u.recoveryHash.None? && u.keyWrappedRecov.None?)
  }

  /** `v` is `u` with the new material and nothing else changed. */
  predicate OnlyRekeyed(u: User, v: User, m: MaterialInput) {
    && Carries(v, m) && v.username == u.username && v.status == u.status && v.invite == u.invite
    && v.blob == u.blob && v.nonce == u.nonce && v.revision == u.revision
  }

  /** parseAuthMaterial accepts exactly good material, and passes on each of its parts. */
  lemma AcceptedExactlyWhenGood(cfg: Config, m: MaterialInput, u: User)
    ensures ParseMaterial(cfg, m).Accepted? <==> GoodMaterial(cfg, m)
    ensures GoodMaterial(cfg, m) ==> OnlyRekeyed(u, Rekeyed(u, ParseMaterial(cfg, m).material), m)
  {
  }

  // ---- logging in ----

  predicate MayLogIn(db: Db, i: nat, name: string, h: Field) {
    Named(db, i, name) && db.users[i].status == Active && SameSecret(db.users[i].authHash, h)
  }

  /** A login succeeds exactly with the stored authentication hash of an active user of that name. */
  lemma LoginExactlyWhen(cfg: Config, db: Db, now: int, name: string, h: Field, t: Token)
    requires Sound(db) && t !in db.sessions
    ensures Handle(cfg, db, now, Login(name, h, t)).1.SessionStarted? <==> exists i :: MayLogIn(db, i, name, h)
    ensures forall i | MayLogIn(db, i, name, h) ::
      Handle(cfg, db, now, Login(name, h, t))
        == (db.(sessions := db.sessions[t := Session(i, now + cfg.sessionTtl)]), SessionStarted(t, i))
    ensures !Handle(cfg, db, now, Login(name, h, t)).1.SessionStarted? ==>
      Handle(cfg, db, now, Login(name, h, t)).0 == db
  {
    var r := Handle(cfg, db, now, Login(name, h, t));
    if r.1.SessionStarted? {
      assert MayLogIn(db, Find(db, name).value, name, h);
    }
  }

  /** A refused login does not tell an unknown name from a wrong hash; pending and disabled users are told so. */
  lemma RefusalsLookAlike(cfg: Config, db: Db, now: int, name: string, h: Field, t: Token)
    requires Sound(db)
    ensures !Taken(db, name) ==> Handle(cfg, db, now, Login(name, h, t)).1 == Failed("bad_credentials")
    ensures forall i | Named(db, i, name) && db.users[i].status == Active && !SameSecret(db.users[i].authHash, h) ::
      Handle(cfg, db, now, Login(name, h, t)).1 == Failed("bad_credentials")
    ensures forall i | Named(db, i, name) && db.users[i].status != Active ::
      Handle(cfg, db, now, Login(name, h, t)).1
        == Failed(if db.users[i].status == Pending then "pending" else "disabled")
  {
  }

  // ---- sessions ----

  /** A session opens the vault exactly until it expires, and only while its user is active. */
  lemma SessionAcceptedExactlyWhen(cfg: Config, db: Db, now: int, t: Token)
    requires Sound(db)
    ensures Handle(cfg, db, now, VaultGet(t)).1.Payload? <==>
      && t != "" && t in db.sessions && now <= db.sessions[t].expires
      && db.users[db.sessions[t].userId].status == Active
    ensures Handle(cfg, db, now, VaultGet(t)).1.Payload? ==>
      Handle(cfg, db, now, VaultGet(t)).1.user == db.users[db.sessions[t].userId]
    ensures t == "" ==> Handle(cfg, db, now, VaultGet(t)).1 == Failed("no_session")
    ensures t != "" && (t in db.sessions ==> now > db.sessions[t].expires) ==>
      Handle(cfg, db, now, VaultGet(t)).1 == Failed("bad_session")
    ensures var d := Handle(cfg, db, now, VaultGet(t)).0;
      && d.users == db.users
      && d.sessions == if t in db.sessions && t != "" && now > db.sessions[t].expires then db.sessions - {t}
                       else db.sessions
  {
  }

  /** A session just started by a login is accepted for the configured time and no longer. */
  lemma SessionLives(cfg: Config, db: Db, now: int, name: string, h: Field, t: Token, later: int)
    requires Sound(db) && t !in db.sessions && t != "" && exists i :: MayLogIn(db, i, name, h)
    ensures var d := Handle(cfg, db, now, Login(name, h, t)).0;
      Handle(cfg, d, later, VaultGet(t)).1.Payload? <==> later <= now + cfg.sessionTtl
  {
    var i :| MayLogIn(db, i, name, h);
    LoginExactlyWhen(cfg, db, now, name, h, t);
    SessionAcceptedExactlyWhen(cfg, Handle(cfg, db, now, Login(name, h, t)).0, later, t);
  }

  // ---- changing and recovering the password ----

  predicate ChangeAccepted(cfg: Config, db: Db, now: int, q: Request)
    requires q.ChangePassword?
  {
    var t := q.bearer;
    && t != "" && t in db.sessions && now <= db.sessions[t].expires && db.sessions[t].userId in db.users
    && db.users[db.sessions[t].userId].status == Active
    && SameSecret(db.users[db.sessions[t].userId].authHash, q.oldHash) && GoodMaterial(cfg, q.material)
  }

  /** A password change needs a live session, the old authentication hash and good material. */
  lemma ChangePasswordExactlyWhen(cfg: Config, db: Db, now: int, q: Request)
    requires Sound(db) && q.ChangePassword?
    ensures Handle(cfg, db, now, q).1.Done? <==> ChangeAccepted(cfg, db, now, q)
    ensures ChangeAccepted(cfg, db, now, q) ==>
      var id, users := db.sessions[q.bearer].userId, Handle(cfg, db, now, q).0.users;
      id in users && users == db.users[id := users[id]] && OnlyRekeyed(db.users[id], users[id], q.material)
    ensures !ChangeAccepted(cfg, db, now, q) ==> Handle(cfg, db, now, q).0.users == db.users
  {
    hide ParseMaterial, GoodMaterial, Rekeyed, OnlyRekeyed;
    var id := Authed(db, q.bearer, now);
    AcceptedExactlyWhenGood(cfg, q.material, if id.Some? then db.users[id.value] else NewPending("", ""));
  }

  predicate MayRecover(db: Db, i: nat, name: string, h: Field) {
    Named(db, i, name) && SameSecret(db.users[i].recoveryHash, h)
  }

  /** Recovery needs the stored recovery hash of that name and good material. */
  lemma RecoverExactlyWhen(cfg: Config, db: Db, now: int, q: Request)
    requires Sound(db) && q.Recover? && q.token !in db.sessions
    ensures Handle(cfg, db, now, q).1.SessionStarted? <==>
      GoodMaterial(cfg, q.material) && exists i :: MayRecover(db, i, q.username, q.recoveryHash)
    ensures forall i | GoodMaterial(cfg, q.material) && MayRecover(db, i, q.username, q.recoveryHash) ::
      && Handle(cfg, db, now, q).1 == SessionStarted(q.token, i)
      && var users := Handle(cfg, db, now, q).0.users;
         i in users && users == db.users[i := users[i]] && OnlyRekeyed(db.users[i], users[i], q.material)
    ensures !Handle(cfg, db, now, q).1.SessionStarted? ==> Handle(cfg, db, now, q).0 == db
  {
    hide ParseMaterial, GoodMaterial, Rekeyed, OnlyRekeyed;
    var found := Find(db, q.username);
    AcceptedExactlyWhenGood(cfg, q.material, if found.Some? then db.users[found.value] else NewPending("", ""));
    if Handle(cfg, db, now, q).1.SessionStarted? {
      assert MayRecover(db, Find(db, q.username).value, q.username, q.recoveryHash);
    }
  }

  /** The recovery payload is given out exactly for the stored recovery hash. */
  lemma PayloadExactlyWhen(cfg: Config, db: Db, now: int, name: string, h: Field, issued: set<Token>)
    requires Inv(db, issued)
    ensures Handle(cfg, db, now, RecoverPayload(name, h)).1.Payload? <==> exists i :: MayRecover(db, i, name, h)
    ensures forall i | MayRecover(db, i, name, h) ::
      Handle(cfg, db, now, RecoverPayload(name, h)) == (db, Payload(db.users[i]))
  {
    if Handle(cfg, db, now, RecoverPayload(name, h)).1.Payload? {
      assert MayRecover(db, Find(db, name).value, name, h);
    }
  }

  // ---- setting up an account ----

  /** An invite opens the pending row of that name; without one the name must be free and registration open. */
  ghost predicate SetupAllowed(cfg: Config, db: Db, q: Request)
    requires q.Setup?
  {
    if q.invite != "" then
      exists i :: Named(db, i, q.username) && db.users[i].status == Pending && db.users[i].invite == Some(q.invite)
    else cfg.allowRegistration && !Taken(db, q.username)
  }

  predicate SetupComplete(cfg: Config, q: Request)
    requires q.Setup?
  {
    1 <= |q.username| <= 128 && GoodMaterial(cfg, q.material) && Present(q.blob) && Present(q.nonce)
  }

  lemma SetupErrorIs(cfg: Config, q: Request)
    requires q.Setup?
    ensures SetupError(cfg, q.username, q.material, q.blob, q.nonce).None? <==> SetupComplete(cfg, q)
    ensures SetupComplete(cfg, q) ==>
      Carries(NewUser(q.username, MaterialOf(q.material), q.blob.bytes, q.nonce.bytes), q.material)
  {
  }

  /** Setup succeeds exactly for a complete request that is allowed, and then the row is active with these secrets. */
  lemma SetupExactlyWhen(cfg: Config, db: Db, now: int, q: Request)
    requires Sound(db) && q.Setup? && q.token !in db.sessions
    ensures Handle(cfg, db, now, q).1.SessionStarted? <==> SetupComplete(cfg, q) && SetupAllowed(cfg, db, q)
    ensures Handle(cfg, db, now, q).1.SessionStarted? ==>
      var d, i := Handle(cfg, db, now, q).0, Handle(cfg, db, now, q).1.userId;
      && Named(d, i, q.username) && d.users[i].status == Active && d.users[i].revision == 1
      && Carries(d.users[i], q.material) && SameSecret(d.users[i].blob, q.blob) && SameSecret(d.users[i].nonce, q.nonce)
    ensures !Handle(cfg, db, now, q).1.SessionStarted? ==> Handle(cfg, db, now, q).0 == db
  {
    hide ParseMaterial, GoodMaterial, RecoveryError, KeysError;
    SetupErrorIs(cfg, q);
    if Handle(cfg, db, now, q).1.SessionStarted? && q.invite != "" {
      var i := Find(db, q.username).value;
      assert Named(db, i, q.username) && db.users[i].status == Pending && db.users[i].invite == Some(q.invite);
    }
  }

  // ---- what one handler sets, the others check ----

  /** After a successful setup the new authentication hash, and no other, logs in. */
  lemma LoginAfterSetup(cfg: Config, db: Db, now: int, q: Request, issued: set<Token>, later: int, h: Field, t: Token)
    requires Inv(db, issued) && q.Setup? && FreshTokens(q, issued) && Handle(cfg, db, now, q).1.SessionStarted?
    requires t !in Handle(cfg, db, now, q).0.sessions
    ensures Handle(cfg, Handle(cfg, db, now, q).0, later, Login(q.username, h, t)).1.SessionStarted?
      <==> h == q.material.authHash
  {
    hide Handle;
    SetupExactlyWhen(cfg, db, now, q);
    var d, i := Handle(cfg, db, now, q).0, Handle(cfg, db, now, q).1.userId;
    StepInv(cfg, db, now, q, issued);
    InvSound(d, issued + Offered(q));
    OnlyRow(cfg, d, i, q.username, later, h, t);
  }

  lemma InvSound(db: Db, issued: set<Token>)
    requires Inv(db, issued)
    ensures Sound(db)
  {
  }

  /** Whether a login succeeds depends on the one row of that name. */
  lemma OnlyRow(cfg: Config, db: Db, i: nat, name: string, now: int, h: Field, t: Token)
    requires Sound(db) && t !in db.sessions && Named(db, i, name)
    ensures Handle(cfg, db, now, Login(name, h, t)).1.SessionStarted? <==>
      db.users[i].status == Active && SameSecret(db.users[i].authHash, h)
  {
    hide Handle;
    LoginExactlyWhen(cfg, db, now, name, h, t);
    if db.users[i].status == Active && SameSecret(db.users[i].authHash, h) {
      assert MayLogIn(db, i, name, h);
    }
    forall j | MayLogIn(db, j, name, h)
      ensures j == i
    {
    }
  }

  /** After a password change the new authentication hash, and no other, logs in. */
  lemma LoginAfterChange(cfg: Config, db: Db, now: int, q: Request, issued: set<Token>, later: int, h: Field, t: Token)
    requires Inv(db, issued) && q.ChangePassword? && ChangeAccepted(cfg, db, now, q)
    requires t !in Handle(cfg, db, now, q).0.sessions
    ensures var name := db.users[db.sessions[q.bearer].userId].username;
      Handle(cfg, Handle(cfg, db, now, q).0, later, Login(name, h, t)).1.SessionStarted? <==> h == q.material.authHash
  {
    hide Handle, Inv, ParseMaterial;
    InvSound(db, issued);
    ChangePasswordExactlyWhen(cfg, db, now, q);
    var d, i := Handle(cfg, db, now, q).0, db.sessions[q.bearer].userId;
    StepInv(cfg, db, now, q, issued);
    InvSound(d, issued + Offered(q));
    OnlyRow(cfg, d, i, db.users[i].username, later, h, t);
  }

  /** After a recovery the new authentication hash, and no other, logs in, if the account is active. */
  lemma LoginAfterRecover(
    cfg: Config, db: Db, now: int, q: Request, issued: set<Token>, i: nat, later: int, h: Field, t: Token)
    requires Inv(db, issued) && q.Recover? && FreshTokens(q, issued)
    requires GoodMaterial(cfg, q.material) && MayRecover(db, i, q.username, q.recoveryHash)
    requires t !in Handle(cfg, db, now, q).0.sessions
    ensures Handle(cfg, Handle(cfg, db, now, q).0, later, Login(q.username, h, t)).1.SessionStarted? <==>
      db.users[i].status == Active && h == q.material.authHash
  {
    hide Handle, ParseMaterial;
    RecoverExactlyWhen(cfg, db, now, q);
    var d := Handle(cfg, db, now, q).0;
    StepInv(cfg, db, now, q, issued);
    OnlyRow(cfg, d, i, q.username, later, h, t);
  }

  /** Recovery burns the recovery hash: afterwards only the one sent with it, if any, recovers the account. */
  lemma RecoverBurns(cfg: Config, db: Db, now: int, q: Request, issued: set<Token>, i: nat, h: Field)
    requires Inv(db, issued) && q.Recover? && FreshTokens(q, issued)
    requires GoodMaterial(cfg, q.material) && MayRecover(db, i, q.username, q.recoveryHash)
    ensures (exists j :: MayRecover(Handle(cfg, db, now, q).0, j, q.username, h)) <==>
      q.material.recovery.Some? && h == q.material.recovery.value.hash
  {
    hide Handle, ParseMaterial;
    RecoverExactlyWhen(cfg, db, now, q);
    var d := Handle(cfg, db, now, q).0;
    StepInv(cfg, db, now, q, issued);
    if q.material.recovery.Some? && h == q.material.recovery.value.hash {
      assert MayRecover(d, i, q.username, h);
    }
    forall j | Named(d, j, q.username)
      ensures j == i
    {
    }
  }

  /** An invite is good for one name until it is used or replaced: only the last one given out opens the account. */
  lemma LastInviteOnly(cfg: Config, db: Db, now: int, id: nat, invite: Token, q: Request)
    requires Sound(db) && q.Setup? && q.invite != "" && id in db.users && db.users[id].status == Pending
    requires q.username == db.users[id].username
    ensures SetupAllowed(cfg, Handle(cfg, db, now, ResetInvite(id, invite)).0, q) <==> q.invite == invite
  {
    var d := Handle(cfg, db, now, ResetInvite(id, invite)).0;
    assert Named(d, id, q.username) && d.users[id].status == Pending;
  }

  lemma InviteOfNewUser(cfg: Config, db: Db, now: int, name: string, invite: Token, overHttp: bool, q: Request)
    requires Sound(db) && q.Setup? && q.invite != "" && q.username == name
    requires Handle(cfg, db, now, CreateUser(name, invite, overHttp)).1.Invited?
    ensures SetupAllowed(cfg, Handle(cfg, db, now, CreateUser(name, invite, overHttp)).0, q) <==> q.invite == invite
  {
    var d := Handle(cfg, db, now, CreateUser(name, invite, overHttp)).0;
    assert Named(d, db.nextId, name) && d.users[db.nextId].status == Pending;
  }

  /** A disabled user cannot log in and none of the sessions of that user is accepted. */
  lemma DisabledIsRefused(cfg: Config, db: Db, now: int, i: nat, name: string, later: int, h: Field, t: Token)
    requires Sound(db) && Named(db, i, name)
    ensures var d := Handle(cfg, db, now, Disable(name)).0;
      && Handle(cfg, d, later, Login(name, h, t)).1 == Failed("disabled")
      && forall s | s in d.sessions && d.sessions[s].userId == i :: !Handle(cfg, d, later, VaultGet(s)).1.Payload?
  {
    var d := Handle(cfg, db, now, Disable(name)).0;
    FindNamed(db, i, name);
    FindNamed(d, i, name);
  }

  // ---- a password stays good until it is replaced ----

  /** Requests about user i that may change who can log in as that user. */
  ghost predicate Rewrites(db: Db, now: int, q: Request, i: nat) {
    (q.Setup? || q.ChangePassword? || q.Recover? || q.DeleteUser? || q.Disable?) && Subject(db, now, q) == Some(i)
  }

  ghost predicate SameAuth(db: Db, d: Db, i: nat) {
    && i in db.users && i in d.users && d.users[i].username == db.users[i].username
    && d.users[i].status == db.users[i].status && d.users[i].authHash == db.users[i].authHash
    && d.users[i].recoveryHash == db.users[i].recoveryHash
  }

  lemma AuthKept(cfg: Config, db: Db, now: int, q: Request, i: nat)
    requires Sound(db) && i in db.users && !Rewrites(db, now, q, i)
    ensures SameAuth(db, Handle(cfg, db, now, q).0, i)
  {
    if Subject(db, now, q) != Some(i) {
      hide Handle;
      OthersUntouched(cfg, db, now, q);
    } else {
      OwnRequestKeepsAuth(cfg, db, now, q, i);
    }
  }

  lemma OwnRequestKeepsAuth(cfg: Config, db: Db, now: int, q: Request, i: nat)
    requires Sound(db) && i in db.users
    requires !q.Setup? && !q.ChangePassword? && !q.Recover? && !q.DeleteUser? && !q.Disable?
    ensures SameAuth(db, Handle(cfg, db, now, q).0, i)
  {
    hide Find, LiveUser, ParseMaterial;
  }

  ghost predicate NoneRewrites(cfg: Config, db: Db, events: seq<Event>, i: nat)
    decreases |events|
  {
    events != [] ==>
      && !Rewrites(db, events[0].now, events[0].request, i)
      && NoneRewrites(cfg, Handle(cfg, db, events[0].now, events[0].request).0, events[1..], i)
  }

  lemma {:induction false} AuthKeptOnRun(cfg: Config, db: Db, events: seq<Event>, issued: set<Token>, i: nat)
    requires Inv(db, issued) && FreshRun(events, issued) && i in db.users && NoneRewrites(cfg, db, events, i)
    ensures SameAuth(db, Run(cfg, db, events), i)
    decreases |events|
  {
    hide Handle, Inv, Offered, Rewrites;
    if events != [] {
      var now, q := events[0].now, events[0].request;
      InvSound(db, issued);
      AuthKept(cfg, db, now, q, i);
      StepInv(cfg, db, now, q, issued);
      AuthKeptOnRun(cfg, Handle(cfg, db, now, q).0, events[1..], issued + Offered(q), i);
    }
  }

  /** After any run that does not rewrite them, exactly the same hash logs in as before. */
  lemma LoginAfterRun(
    cfg: Config, db: Db, events: seq<Event>, issued: set<Token>, i: nat, now: int, h: Field, t: Token)
    requires Inv(db, issued) && FreshRun(events, issued) && i in db.users && NoneRewrites(cfg, db, events, i)
    requires t !in Run(cfg, db, events).sessions
    ensures Handle(cfg, Run(cfg, db, events), now, Login(db.users[i].username, h, t)).1.SessionStarted? <==>
      db.users[i].status == Active && SameSecret(db.users[i].authHash, h)
  {
    hide Handle, Run, Inv, FreshRun, NoneRewrites;
    AuthKeptOnRun(cfg, db, events, issued, i);
    RunInv(cfg, db, events, issued);
    InvSound(Run(cfg, db, events), issued + AllOffered(events));
    OnlyRow(cfg, Run(cfg, db, events), i, db.users[i].username, now, h, t);
  }

  // ---- writing the vault ----

  /** A vault write succeeds exactly for a live session, complete fields and the current revision, and stores them. */
  lemma VaultPutExactlyWhen(cfg: Config, db: Db, now: int, q: Request)
    requires Sound(db) && q.VaultPut?
    ensures Handle(cfg, db, now, q).1.Revision? <==> PassesVaultChecks(db, now, q)
    ensures PassesVaultChecks(db, now, q) ==>
      var id := Authed(db, q.bearer, now).value;
      var u, w := db.users[id], Handle(cfg, db, now, q).0.users[id];
      && Handle(cfg, db, now, q).1.revision == w.revision == u.revision + 1
      && SameSecret(w.blob, q.blob) && SameSecret(w.nonce, q.nonce)
      && (if q.key.Some? then SameSecret(w.keyWrapped, q.key.value) else w.keyWrapped == u.keyWrapped)
      && (if q.keyRecov.Some? then SameSecret(w.keyWrappedRecov, q.keyRecov.value)
          else w.keyWrappedRecov == u.keyWrappedRecov)
    ensures !PassesVaultChecks(db, now, q) ==> Handle(cfg, db, now, q).0.users == db.users
    ensures Present(q.blob) && Present(q.nonce) && Decodable(q.key) && Decodable(q.keyRecov) ==>
      var id := Authed(db, q.bearer, now);
      id.Some? && db.users[id.value].revision != q.base ==>
        Handle(cfg, db, now, q).1 == Failed("revision_conflict")
  {
  }

  // ---- administration ----

  /** When each administrative request succeeds. */
  lemma AdministrationExactlyWhen(
    cfg: Config, db: Db, now: int, name: string, invite: Token, overHttp: bool, id: nat)
    requires Sound(db)
    ensures Handle(cfg, db, now, CreateUser(name, invite, overHttp)).1 == Invited(invite) <==>
      !Taken(db, name) && (overHttp ==> 1 <= |name| <= 128)
    ensures Handle(cfg, db, now, DeleteUser(id)).1 == Done <==> id in db.users
    ensures Handle(cfg, db, now, ResetInvite(id, invite)).1 == Invited(invite) <==>
      id in db.users && db.users[id].status == Pending
    ensures Handle(cfg, db, now, Disable(name)).1 == Done <==> Taken(db, name)
  {
    if i :| Named(db, i, name) {
      FindNamed(db, i, name);
    }
  }
}
