/**
 * The compare-and-swap on the vault revision, over every interleaving of store statements from any
 * number of clients.
 */
module VaultCas {
  import opened Options
  import opened LittleEndian
  import opened Store

  datatype Statement =
    | CreatePending(username: string, token: Token)
    | InsertUser(user: User)
    | ResetInvite(id: nat, token: Token)
    | DeleteUser(id: nat)
    | Activate(id: nat, user: User)
    | Disable(id: nat)
    | UpdateVault(id: nat, base: int, blob: Bytes, nonce: Bytes, key: Option<Bytes>, keyRecov: Option<Bytes>)
    | UpdateAuth(id: nat, material: Material, burn: bool)
    | CreateSession(id: nat, token: Token, expires: int)
    | DeleteSession(token: Token)
    | DeleteAll(id: nat)
    | DeleteOthers(id: nat, token: Token)
    | Lookup(token: Token, now: int)

  function Execute(db: Db, s: Statement): Db {
    match s
    case CreatePending(name, token) => AfterCreatePending(db, name, token)
    case InsertUser(u) => AfterInsertUser(db, u)
    case ResetInvite(id, token) => AfterResetInvite(db, id, token)
    case DeleteUser(id) => AfterDeleteUser(db, id)
    case Activate(id, u) => AfterActivate(db, id, u)
    case Disable(id) => AfterDisable(db, id)
    case UpdateVault(id, base, blob, nonce, key, keyRecov) => AfterUpdateVault(db, id, base, blob, nonce, key, keyRecov)
    case UpdateAuth(id, m, burn) => AfterUpdateAuth(db, id, m, burn)
    case CreateSession(id, token, expires) => AfterCreateSession(db, id, token, expires)
    case DeleteSession(token) => AfterDeleteSession(db, token)
    case DeleteAll(id) => AfterDeleteAll(db, id)
    case DeleteOthers(id, token) => AfterDeleteOthers(db, id, token)
    case Lookup(token, now) => AfterLookup(db, token, now)
  }

  function Run(db: Db, stmts: seq<Statement>): Db
    decreases |stmts|
  {
    if stmts == [] then db else Run(Execute(db, stmts[0]), stmts[1..])
  }

  datatype Write = Write(base: int, blob: Bytes, nonce: Bytes)

  /** The accepted vault writes of one user, in order. */
  function Accepted(db: Db, stmts: seq<Statement>, id: nat): seq<Write>
    decreases |stmts|
  {
    if stmts == [] then []
    else
      (if stmts[0].UpdateVault? && stmts[0].id == id && VaultMatches(db, id, stmts[0].base)
       then [Write(stmts[0].base, stmts[0].blob, stmts[0].nonce)] else [])
      + Accepted(Execute(db, stmts[0]), stmts[1..], id)
  }

  /** A user that has been configured, or an id that has been used up: neither is ever activated again. */
  predicate Settled(db: Db, id: nat) {
    id < db.nextId && (id in db.users ==> !db.users[id].status.Pending?)
  }

  predicate SameVault(u: User, v: User) {
    u.blob == v.blob && u.nonce == v.nonce && u.revision == v.revision
  }

  /** Only an accepted vault write changes blob, nonce or revision; changing auth material does not. */
  lemma StatementKeepsVault(db: Db, s: Statement, id: nat)
    requires Settled(db, id)
    ensures Settled(Execute(db, s), id)
    ensures id !in db.users ==> id !in Execute(db, s).users
    ensures id in Execute(db, s).users && !(s.UpdateVault? && s.id == id && VaultMatches(db, id, s.base)) ==>
      SameVault(db.users[id], Execute(db, s).users[id])
  {
  }

  lemma {:induction false} NothingAfterDeletion(db: Db, stmts: seq<Statement>, id: nat)
    requires Settled(db, id) && id !in db.users
    ensures Accepted(db, stmts, id) == [] && id !in Run(db, stmts).users
    decreases |stmts|
  {
    hide Execute;
    if stmts != [] {
      StatementKeepsVault(db, stmts[0], id);
      NothingAfterDeletion(Execute(db, stmts[0]), stmts[1..], id);
    }
  }

  /** The writes form a chain of revisions starting at r. */
  predicate Chain(w: seq<Write>, r: int) {
    forall k | 0 <= k < |w| :: w[k].base == r + k
  }

  lemma ChainCons(w: Write, rest: seq<Write>, r: int)
    requires w.base == r && Chain(rest, r + 1)
    ensures Chain([w] + rest, r)
  {
    forall k | 0 <= k < |[w] + rest|
      ensures ([w] + rest)[k].base == r + k
    {
      if k > 0 {
        assert ([w] + rest)[k] == rest[k - 1];
      }
    }
  }

  /**
   * Over every interleaving the accepted writes of a configured user have the base revisions r, r+1, ...;
   * as long as the user exists the revision counts them and blob and nonce are those of the last one.
   */
  lemma {:induction false} AcceptedWritesChain(db: Db, stmts: seq<Statement>, id: nat)
    requires Settled(db, id) && id in db.users
    ensures var w, r, db' := Accepted(db, stmts, id), db.users[id].revision, Run(db, stmts);
      && Chain(w, r)
      && (id in db'.users ==>
            db'.users[id].revision == r + |w|
            && (w == [] ==> SameVault(db.users[id], db'.users[id]))
            && (w != [] ==> db'.users[id].blob == Some(w[|w| - 1].blob))
            && (w != [] ==> db'.users[id].nonce == Some(w[|w| - 1].nonce)))
    decreases |stmts|
  {
    hide Execute;
    if stmts != [] {
      var s, d := stmts[0], Execute(db, stmts[0]);
      StatementKeepsVault(db, s, id);
      if id !in d.users {
        DeletionAcceptsNothing(db, s, id);
        NothingAfterDeletion(d, stmts[1..], id);
      } else {
        AcceptedWritesChain(d, stmts[1..], id);
        if s.UpdateVault? && s.id == id && VaultMatches(db, id, s.base) {
          WriteMoves(db, s);
          ChainCons(Write(s.base, s.blob, s.nonce), Accepted(d, stmts[1..], id), s.base);
        }
      }
    }
  }

  lemma DeletionAcceptsNothing(db: Db, s: Statement, id: nat)
    requires id in db.users && id !in Execute(db, s).users
    ensures !s.UpdateVault?
  {
  }

  lemma WriteMoves(db: Db, s: Statement)
    requires s.UpdateVault? && VaultMatches(db, s.id, s.base)
    ensures var u := Execute(db, s).users;
      s.id in u && u[s.id].revision == s.base + 1 && u[s.id].blob == Some(s.blob) && u[s.id].nonce == Some(s.nonce)
  {
  }

  /** At most one write succeeds per base revision. */
  lemma OneWritePerRevision(db: Db, stmts: seq<Statement>, id: nat, i: nat, j: nat)
    requires Settled(db, id) && id in db.users && i < j < |Accepted(db, stmts, id)|
    ensures Accepted(db, stmts, id)[i].base != Accepted(db, stmts, id)[j].base
  {
    AcceptedWritesChain(db, stmts, id);
  }

  /**
   * No lost update: if a write based on the revision read in `db` is accepted after any statements of
   * other clients, the vault it replaces is still the one that was read.
   */
  lemma NoLostUpdate(db: Db, stmts: seq<Statement>, id: nat)
    requires Settled(db, id) && id in db.users && VaultMatches(Run(db, stmts), id, db.users[id].revision)
    ensures Accepted(db, stmts, id) == [] && SameVault(db.users[id], Run(db, stmts).users[id])
  {
    AcceptedWritesChain(db, stmts, id);
  }

  /** The same from direct registration: the row is inserted under the next id, at revision 1. */
  lemma RevisionSinceRegistration(db: Db, u: User, stmts: seq<Statement>)
    requires !Taken(db, u.username) && u.status.Active? && u.revision == 1
    ensures var d, id := AfterInsertUser(db, u), db.nextId;
      Chain(Accepted(d, stmts, id), 1)
        && (id in Run(d, stmts).users ==> Run(d, stmts).users[id].revision == 1 + |Accepted(d, stmts, id)|)
  {
    AcceptedWritesChain(AfterInsertUser(db, u), stmts, db.nextId);
  }

  /** From activation at revision 1 the revision is one more than the number of accepted writes. */
  lemma RevisionSinceActivation(db: Db, id: nat, u: User, stmts: seq<Statement>)
    requires id < db.nextId && id in db.users && db.users[id].status.Pending? && u.revision == 1
    ensures var d := AfterActivate(db, id, u);
      Chain(Accepted(d, stmts, id), 1)
        && (id in Run(d, stmts).users ==> Run(d, stmts).users[id].revision == 1 + |Accepted(d, stmts, id)|)
  {
    AcceptedWritesChain(AfterActivate(db, id, u), stmts, id);
  }
}
