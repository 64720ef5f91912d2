/** What the invariant of Accounts.dfy means for tokens, recovery keys, rows and ids over whole runs. */
module Sessions {
  import opened Options
  import opened Store
  import opened Accounts

  datatype Event = Event(now: int, request: Request)

  const EMPTY := Db(map[], map[], 0)

  ghost function Run(cfg: Config, db: Db, events: seq<Event>): Db
    decreases |events|
  {
    if events == [] then db else Run(cfg, Handle(cfg, db, events[0].now, events[0].request).0, events[1..])
  }

  function AllOffered(events: seq<Event>): set<Token> {
    if events == [] then {} else Offered(events[0].request) + AllOffered(events[1..])
  }

  ghost predicate FreshRun(events: seq<Event>, issued: set<Token>)
    decreases |events|
  {
    events != [] ==>
      FreshTokens(events[0].request, issued) && FreshRun(events[1..], issued + Offered(events[0].request))
  }

  lemma {:induction false} RunInv(cfg: Config, db: Db, events: seq<Event>, issued: set<Token>)
    requires Inv(db, issued) && FreshRun(events, issued)
    ensures Inv(Run(cfg, db, events), issued + AllOffered(events))
    decreases |events|
  {
    hide Inv, Handle, Offered;
    if events == [] {
      assert issued + {} == issued;
    } else {
      var q := events[0].request;
      StepInv(cfg, db, events[0].now, q, issued);
      RunInv(cfg, Handle(cfg, db, events[0].now, q).0, events[1..], issued + Offered(q));
      assert issued + Offered(q) + AllOffered(events[1..]) == issued + AllOffered(events);
    }
  }

  /** Every state reached from an empty database satisfies the account and session invariant. */
  lemma Reachable(cfg: Config, events: seq<Event>)
    requires FreshRun(events, {})
    ensures Inv(Run(cfg, EMPTY, events), AllOffered(events))
  {
    hide Run, FreshRun;
    assert {} + AllOffered(events) == AllOffered(events);
    RunInv(cfg, EMPTY, events, {});
  }

  // ---- tokens ----

  /** A handler adds no session token but the one it offers. */
  lemma StepTokens(cfg: Config, db: Db, now: int, q: Request)
    ensures Handle(cfg, db, now, q).0.sessions.Keys <= db.sessions.Keys + Offered(q)
  {
  }

  lemma {:induction false} GoneStaysGone(cfg: Config, db: Db, events: seq<Event>, issued: set<Token>, t: Token)
    requires FreshRun(events, issued) && t in issued && t !in db.sessions
    ensures t !in Run(cfg, db, events).sessions
    decreases |events|
  {
    hide Handle, Offered;
    if events != [] {
      StepTokens(cfg, db, events[0].now, events[0].request);
      GoneStaysGone(cfg, Handle(cfg, db, events[0].now, events[0].request).0, events[1..],
        issued + Offered(events[0].request), t);
    }
  }

  predicate HasBearer(q: Request) {
    q.Logout? || q.LogoutAll? || q.ChangePassword? || q.VaultGet? || q.VaultPut?
  }

  /** A token that was issued and is no longer stored is refused by every later authenticated request. */
  lemma RevokedNeverAuthenticates(
    cfg: Config, db: Db, issued: set<Token>, t: Token, events: seq<Event>, now: int, q: Request)
    requires FreshRun(events, issued) && t in issued && t !in db.sessions && t != ""
    requires HasBearer(q) && q.bearer == t
    ensures Handle(cfg, Run(cfg, db, events), now, q).1 == Failed("bad_session")
  {
    GoneStaysGone(cfg, db, events, issued, t);
  }

  /** Changing the password leaves the user exactly the session that did it. */
  lemma ChangePasswordRevokes(cfg: Config, db: Db, now: int, q: Request, issued: set<Token>)
    requires Inv(db, issued) && q.ChangePassword? && Handle(cfg, db, now, q).1.Done?
    ensures Authed(db, q.bearer, now).Some?
    ensures SessionsOf(Handle(cfg, db, now, q).0, Authed(db, q.bearer, now).value) == {q.bearer}
  {
    hide Inv;
    VisitedInv(db, q.bearer, now, issued);
    var r, id := Handle(cfg, db, now, q), Authed(db, q.bearer, now).value;
    assert q.bearer in SessionsOf(r.0, id);
  }

  /** Recovering the account leaves the user exactly the session it starts. */
  lemma RecoverRevokes(cfg: Config, db: Db, now: int, q: Request)
    requires q.Recover? && Handle(cfg, db, now, q).1.SessionStarted?
    ensures var r := Handle(cfg, db, now, q); SessionsOf(r.0, r.1.userId) == {q.token}
  {
    var r := Handle(cfg, db, now, q);
    assert q.token in SessionsOf(r.0, r.1.userId);
  }

  /** UpdateAuthMaterial by itself revokes the user's sessions exactly when the recovery key is burned. */
  lemma UpdateAuthRevokes(db: Db, id: nat, m: Material, burn: bool)
    requires id in db.users
    ensures SessionsOf(AfterUpdateAuth(db, id, m, burn), id) == {} <==> burn || SessionsOf(db, id) == {}
  {
    assert !burn ==> SessionsOf(AfterUpdateAuth(db, id, m, burn), id) == SessionsOf(db, id);
  }

  /** Logging out everywhere and deleting a user leave that user no session. */
  lemma AllRevoked(cfg: Config, db: Db, now: int, q: Request, issued: set<Token>)
    requires Inv(db, issued)
    ensures q.LogoutAll? && Handle(cfg, db, now, q).1.Done? ==>
      (Authed(db, q.bearer, now).Some? && SessionsOf(Handle(cfg, db, now, q).0, Authed(db, q.bearer, now).value) == {})
    ensures q.DeleteUser? ==>
      SessionsOf(Handle(cfg, db, now, q).0, q.id) == {} && q.id !in Handle(cfg, db, now, q).0.users
    ensures q.Logout? ==> q.bearer !in Handle(cfg, db, now, q).0.sessions || Authed(db, q.bearer, now).None?
  {
    if q.LogoutAll? {
      VisitedInv(db, q.bearer, now, issued);
    }
  }

  // ---- recovery ----

  /** The no_recovery branch of handleRecoverPayload is never taken on any run. */
  lemma NoRecoveryUnreachable(cfg: Config, events: seq<Event>, now: int, q: Request)
    requires FreshRun(events, {}) && q.RecoverPayload?
    ensures Handle(cfg, Run(cfg, EMPTY, events), now, q).1 != Failed("no_recovery")
  {
    hide Run, FreshRun;
    Reachable(cfg, events);
  }

  // ---- the wrapped keys over runs ----

  /** No event of the run, in the state it finds, is a vault write that empties a needed wrapped key. */
  ghost predicate NoneEmptiesKey(cfg: Config, db: Db, events: seq<Event>, w: Wrapping)
    decreases |events|
  {
    events != [] ==>
      && !EmptiesKey(db, events[0].now, events[0].request, w)
      && NoneEmptiesKey(cfg, Handle(cfg, db, events[0].now, events[0].request).0, events[1..], w)
  }

  /** Every state of the run, the first and the last included, holds the needed wrapped keys. */
  ghost predicate KeysHeldThroughout(cfg: Config, db: Db, events: seq<Event>, w: Wrapping)
    decreases |events|
  {
    && KeysHeld(db, w)
    && (events != [] ==>
          KeysHeldThroughout(cfg, Handle(cfg, db, events[0].now, events[0].request).0, events[1..], w))
  }

  lemma {:induction false} KeysHeldThroughoutFrom(
    cfg: Config, db: Db, events: seq<Event>, issued: set<Token>, w: Wrapping)
    requires Inv(db, issued) && FreshRun(events, issued) && KeysHeld(db, w)
    ensures KeysHeldThroughout(cfg, db, events, w) <==> NoneEmptiesKey(cfg, db, events, w)
    ensures NoneEmptiesKey(cfg, db, events, w) ==> KeysHeld(Run(cfg, db, events), w)
    decreases |events|
  {
    hide Inv, KeysHeld, EmptiesKey, Handle, Offered;
    if events != [] {
      var now, q := events[0].now, events[0].request;
      StepInv(cfg, db, now, q, issued);
      KeysHeldExactlyWhen(cfg, db, now, q, issued, w);
      var next := Handle(cfg, db, now, q).0;
      if KeysHeld(next, w) {
        KeysHeldThroughoutFrom(cfg, next, events[1..], issued + Offered(q), w);
      }
    }
  }

  /** From an empty database all needed wrapped keys are held throughout a run exactly when no event empties one. */
  lemma KeysHeldOnRuns(cfg: Config, events: seq<Event>, w: Wrapping)
    requires FreshRun(events, {})
    ensures KeysHeldThroughout(cfg, EMPTY, events, w) <==> NoneEmptiesKey(cfg, EMPTY, events, w)
    ensures NoneEmptiesKey(cfg, EMPTY, events, w) ==> KeysHeld(Run(cfg, EMPTY, events), w)
  {
    KeysHeldThroughoutFrom(cfg, EMPTY, events, {}, w);
  }

  // A user registers with a recovery key and then writes the vault with both key fields decoding to no bytes.

  const OPEN := Config(true, 64, 10, 3600)

  const ONE := Raw([1])

  const REGISTRATION := Setup(
    "a", "", MaterialInput(Kdf("argon2id", 1024, 1, 1), ONE, ONE, ONE, Some(Recovery(ONE, ONE))), ONE, ONE, "t")

  const EMPTY_KEYS := VaultPut("t", 1, ONE, ONE, Some(Raw([])), Some(Raw([])))

  lemma KeysEmptied(w: Wrapping)
    ensures FreshRun([Event(0, REGISTRATION), Event(1, EMPTY_KEYS)], {})
    ensures var db := Handle(OPEN, EMPTY, 0, REGISTRATION).0;
      KeysHeld(db, w) && EmptiesKey(db, 1, EMPTY_KEYS, w) && !KeysHeld(Handle(OPEN, db, 1, EMPTY_KEYS).0, w)
  {
    var db := Handle(OPEN, EMPTY, 0, REGISTRATION).0;
    var next := Handle(OPEN, db, 1, EMPTY_KEYS).0;
    assert db.users[0].recoveryHash == Some([1]) && db.sessions == map["t" := Session(0, 3600)];
    assert !Filled(StoredKey(next.users[0], w)) && Needs(next.users[0], w);
  }

  /**
   * A recovery payload then always carries a non-empty wrapped key, so the no_recovery branch is not
   * taken even where the database driver reads an empty BLOB back as nil.
   */
  lemma RecoveryPayloadFilled(cfg: Config, events: seq<Event>, now: int, q: Request)
    requires FreshRun(events, {}) && q.RecoverPayload? && NoneEmptiesKey(cfg, EMPTY, events, UnderRecoveryKey)
    ensures var r := Handle(cfg, Run(cfg, EMPTY, events), now, q).1;
      r != Failed("no_recovery") && (r.Payload? ==> Filled(r.user.keyWrappedRecov))
  {
    hide Run, FreshRun, NoneEmptiesKey;
    KeysHeldOnRuns(cfg, events, UnderRecoveryKey);
    var db := Run(cfg, EMPTY, events);
    var found := Find(db, q.username);
    if found.Some? && db.users[found.value].recoveryHash.Some? {
      assert Filled(StoredKey(db.users[found.value], UnderRecoveryKey));
    }
  }

  // ---- rows and ids ----

  /** The user a request is about. */
  ghost function Subject(db: Db, now: int, q: Request): Option<nat> {
    match q
    case Logout(bearer) => Authed(db, bearer, now)
    case LogoutAll(bearer) => Authed(db, bearer, now)
    case ChangePassword(bearer, _, _) => Authed(db, bearer, now)
    case VaultGet(bearer) => Authed(db, bearer, now)
    case VaultPut(bearer, _, _, _, _, _) => Authed(db, bearer, now)
    case DeleteUser(id) => Some(id)
    case ResetInvite(id, _) => Some(id)
    case Setup(name, _, _, _, _, _) => Find(db, name)
    case Login(name, _, _) => Find(db, name)
    case Recover(name, _, _, _) => Find(db, name)
    case RecoverPayload(name, _) => Find(db, name)
    case CreateUser(name, _, _) => Find(db, name)
    case Disable(name) => Find(db, name)
  }

  /** Rows of other users, and their sessions that have not expired, are as before. */
  ghost predicate OthersKept(db: Db, db': Db, subject: Option<nat>, now: int) {
    && (forall id | id in db.users && subject != Some(id) :: id in db'.users && db'.users[id] == db.users[id])
    && (forall t | t in db.sessions && now <= db.sessions[t].expires && subject != Some(db.sessions[t].userId) ::
          t in db'.sessions && db'.sessions[t] == db.sessions[t])
  }

  lemma AuthedKeepsOthers(cfg: Config, db: Db, now: int, q: Request)
    requires HasBearer(q)
    ensures OthersKept(db, HandleAuthed(cfg, db, now, q.bearer, q).0, Authed(db, q.bearer, now), now)
  {
    hide ParseMaterial;
  }

  lemma NothingTouched(db: Db, subject: Option<nat>, now: int)
    ensures OthersKept(db, db, subject, now)
  {
  }

  lemma RowReplaced(db: Db, id: nat, u: User, now: int)
    ensures OthersKept(db, SetUser(db, id, u), Some(id), now)
  {
  }

  lemma RowInserted(db: Db, u: User, subject: Option<nat>, now: int)
    requires Sound(db)
    ensures OthersKept(db, Insert(db, u), subject, now)
  {
  }

  lemma SessionAdded(cfg: Config, db: Db, id: nat, token: Token, subject: Option<nat>, now: int)
    ensures OthersKept(db, StartSession(cfg, db, id, token, now).0, subject, now)
  {
  }

  lemma RowDeleted(db: Db, id: nat, now: int)
    ensures OthersKept(db, AfterDeleteUser(db, id), Some(id), now)
  {
  }

  lemma SetupKeepsOthers(cfg: Config, db: Db, now: int, q: Request)
    requires Sound(db) && q.Setup?
    ensures OthersKept(db, HandleSetup(cfg, db, now, q).0, Find(db, q.username), now)
  {
    hide OthersKept, Sound, StartSession, Insert, SetUser;
    var found := Find(db, q.username);
    NothingTouched(db, found, now);
    if SetupError(cfg, q.username, q.material, q.blob, q.nonce).None? {
      var u := NewUser(q.username, MaterialOf(q.material), q.blob.bytes, q.nonce.bytes);
      if found.Some? {
        var v := u.(username := db.users[found.value].username, status := Active, invite := None);
        RowReplaced(db, found.value, v, now);
        ThenSession(cfg, db, SetUser(db, found.value, v), found.value, q.token, found, now);
      } else {
        RowInserted(db, u, found, now);
        ThenSession(cfg, db, Insert(db, u), db.nextId, q.token, found, now);
      }
    }
  }

  lemma ThenSession(cfg: Config, db: Db, d: Db, id: nat, token: Token, subject: Option<nat>, now: int)
    requires OthersKept(db, d, subject, now)
    ensures OthersKept(db, StartSession(cfg, d, id, token, now).0, subject, now)
  {
  }

  lemma RecoverKeepsOthers(cfg: Config, db: Db, now: int, q: Request)
    requires q.Recover?
    ensures OthersKept(db, HandleRecover(cfg, db, now, q).0, Find(db, q.username), now)
  {
    hide ParseMaterial;
  }

  /** No request touches the row of a user it is not about, or ends that user's sessions before they expire. */
  lemma OthersUntouched(cfg: Config, db: Db, now: int, q: Request)
    requires Sound(db)
    ensures OthersKept(db, Handle(cfg, db, now, q).0, Subject(db, now, q), now)
  {
    hide HandleAuthed, HandleSetup, HandleRecover, OthersKept;
    if HasBearer(q) {
      AuthedKeepsOthers(cfg, db, now, q);
    } else if q.Setup? {
      SetupKeepsOthers(cfg, db, now, q);
    } else if q.Recover? {
      RecoverKeepsOthers(cfg, db, now, q);
    } else {
      RestKeepsOthers(cfg, db, now, q);
    }
  }

  lemma RestKeepsOthers(cfg: Config, db: Db, now: int, q: Request)
    requires Sound(db) && !HasBearer(q) && !q.Setup? && !q.Recover?
    ensures OthersKept(db, Handle(cfg, db, now, q).0, Subject(db, now, q), now)
  {
    hide OthersKept, Sound, HandleAuthed, HandleSetup, HandleRecover, StartSession, Insert, SetUser, AfterDeleteUser;
    NothingTouched(db, Subject(db, now, q), now);
    match q
    case Login(name, _, token) =>
      var found := Find(db, name);
      if found.Some? {
        SessionAdded(cfg, db, found.value, token, found, now);
      }
    case RecoverPayload(_, _) =>
    case CreateUser(name, token, _) => RowInserted(db, NewPending(name, token), Find(db, name), now);
    case DeleteUser(id) => RowDeleted(db, id, now);
    case ResetInvite(id, token) =>
      if id in db.users {
        RowReplaced(db, id, db.users[id].(invite := Some(token)), now);
      }
    case Disable(name) =>
      var found := Find(db, name);
      if found.Some? {
        RowReplaced(db, found.value, db.users[found.value].(status := Status.Disabled), now);
      }
    case _ =>
  }

  ghost predicate VaultsKept(db: Db, db': Db) {
    forall id | id in db.users :: id in db'.users && db'.users[id].blob == db.users[id].blob
      && db'.users[id].nonce == db.users[id].nonce && db'.users[id].revision == db.users[id].revision
  }

  lemma AuthedKeepsVaults(cfg: Config, db: Db, now: int, q: Request)
    requires q.Logout? || q.LogoutAll? || q.ChangePassword?
    ensures VaultsKept(db, HandleAuthed(cfg, db, now, q.bearer, q).0)
  {
    hide ParseMaterial;
  }

  lemma RecoverKeepsVaults(cfg: Config, db: Db, now: int, q: Request)
    requires q.Recover?
    ensures VaultsKept(db, HandleRecover(cfg, db, now, q).0)
  {
    hide ParseMaterial;
  }

  /** Logging in, logging out and changing or recovering a password never alter a vault or its revision. */
  lemma AuthKeepsVaults(cfg: Config, db: Db, now: int, q: Request)
    requires q.Login? || q.Logout? || q.LogoutAll? || q.ChangePassword? || q.Recover?
    ensures VaultsKept(db, Handle(cfg, db, now, q).0)
  {
    hide HandleAuthed, HandleRecover;
    if q.Recover? {
      RecoverKeepsVaults(cfg, db, now, q);
    } else if !q.Login? {
      AuthedKeepsVaults(cfg, db, now, q);
    }
  }

  lemma StepIds(cfg: Config, db: Db, now: int, q: Request, id: nat)
    requires id < db.nextId && id !in db.users
    ensures id < Handle(cfg, db, now, q).0.nextId && id !in Handle(cfg, db, now, q).0.users
  {
  }

  /** The id of a deleted user is never given out again, so nothing stored for it can pass to someone else. */
  lemma {:induction false} IdsNeverReused(cfg: Config, db: Db, events: seq<Event>, id: nat)
    requires id < db.nextId && id !in db.users
    ensures id !in Run(cfg, db, events).users
    decreases |events|
  {
    hide Handle;
    if events != [] {
      StepIds(cfg, db, events[0].now, events[0].request, id);
      IdsNeverReused(cfg, Handle(cfg, db, events[0].now, events[0].request).0, events[1..], id);
    }
  }
}
