/**
  backend/core/secret_manager.py, SecretLifecycleManager: create, decrypt, rotate, revoke and
  purge over the table of secrets.

  Each committed transaction is one atomic step.  Identifiers, nonces and the clock are
  inputs.  `created` is not stored by the program: it records every id ever inserted, in order.
 */
module SecretLifecycle {
  import opened Wrappers
  import opened SecretEncryption

  type Id = string

  datatype Status = Active | Deprecated | Revoked

  datatype Row = Row(
    workspace: string, name: string, provider: string, blob: string, createdBy: Option<string>,
    createdAt: int, status: Status, rotatedAt: Option<int>, lastUsedAt: Option<int>,
    revokedAt: Option<int>, revokeReason: string, successor: Option<Id>)

  datatype Vault = Vault(rows: map<Id, Row>, created: seq<Id>)

  /** An instant and its ISO text. */
  datatype Now = Now(instant: int, text: string)

  datatype Error = NotFound | IsRevoked | IntegrityError | CipherFailed(error: CipherError)

  datatype Crypto = Crypto(lib: Library, key: Bytes)

  function NewRow(workspace: string, name: string, provider: string, blob: string, createdBy: Option<string>, now: int)
    : Row
  {
    Row(workspace, name, provider, blob, createdBy, now, Active, None, None, None, "", None)
  }

  /** Some row other than `except` has this workspace and name. */
  predicate Taken(rows: map<Id, Row>, workspace: string, name: string, except: Option<Id>) {
    exists id :: id in rows && Some(id) != except && rows[id].workspace == workspace && rows[id].name == name
  }

  /** INSERT under the primary key and UNIQUE (workspace, name). */
  function Insert(v: Vault, id: Id, row: Row): Result<Vault, Error> {
    if id in v.rows || Taken(v.rows, row.workspace, row.name, None) then Err(IntegrityError)
    else Ok(Vault(v.rows[id := row], v.created + [id]))
  }

  function Create(v: Vault, crypto: Crypto, id: Id, workspace: string, name: string, provider: string,
                  plain: Bytes, createdBy: Option<string>, nonce: Bytes, now: Now): Result<Vault, Error>
  {
    var blob := Encrypt(crypto.lib, crypto.key, nonce, plain);
    if blob.Err? then Err(CipherFailed(blob.error))
    else Insert(v, id, NewRow(workspace, name, provider, blob.value, createdBy, now.instant))
  }

  /** The new table is committed before the blob is decrypted. */
  function DecryptSecret(v: Vault, crypto: Crypto, id: Id, now: Now): (Vault, Result<Bytes, Error>) {
    if id !in v.rows then (v, Err(NotFound))
    else if v.rows[id].status == Revoked then (v, Err(IsRevoked))
    else
      var plain := Decrypt(crypto.lib, crypto.key, v.rows[id].blob);
      (v.(rows := v.rows[id := v.rows[id].(lastUsedAt := Some(now.instant))]),
       if plain.Ok? then Ok(plain.value) else Err(CipherFailed(plain.error)))
  }

  function DeprecatedName(name: string, now: Now): string { name + "::deprecated::" + now.text }

  function Retire(row: Row, newId: Id, now: Now): Row {
    row.(status := Deprecated, name := DeprecatedName(row.name, now),
         rotatedAt := Some(now.instant), successor := Some(newId))
  }

  /** Rename the old row out of the way and insert its successor, in one transaction. */
  function Rotate(v: Vault, crypto: Crypto, id: Id, newId: Id, plain: Bytes, nonce: Bytes, now: Now)
    : Result<Vault, Error>
  {
    if id !in v.rows then Err(NotFound)
    else if v.rows[id].status == Revoked then Err(IsRevoked)
    else
      var prior := v.rows[id];
      var blob := Encrypt(crypto.lib, crypto.key, nonce, plain);
      if blob.Err? then Err(CipherFailed(blob.error))
      else if Taken(v.rows, prior.workspace, DeprecatedName(prior.name, now), Some(id)) then Err(IntegrityError)
      else
        Insert(v.(rows := v.rows[id := Retire(prior, newId, now)]), newId,
               NewRow(prior.workspace, prior.name, prior.provider, blob.value, prior.createdBy, now.instant))
  }

  function Revoke(v: Vault, id: Id, reason: string, now: Now): Result<Vault, Error> {
    if id !in v.rows then Err(NotFound)
    else
      Ok(v.(rows := v.rows[id := v.rows[id].(
              status := Revoked, revokedAt := Some(now.instant), revokeReason := reason)]))
  }

  predicate Purgeable(row: Row, cutoff: int) {
    row.status == Revoked && row.revokedAt.Some? && row.revokedAt.value < cutoff
  }

  function Purge(v: Vault, grace: int, now: Now): Vault {
    v.(rows := map id | id in v.rows && !Purgeable(v.rows[id], now.instant - grace) :: v.rows[id])
  }

  // ---------------------------------------------------------------- the class

  class SecretLifecycleManager {
    const crypto: Crypto
    var rows: map<Id, Row>
    ghost var created: seq<Id>

    ghost function State(): Vault
      reads this
    {
      Vault(rows, created)
    }

    constructor (crypto: Crypto)
      ensures this.crypto == crypto && State() == Vault(map[], [])
    {
      this.crypto, rows, created := crypto, map[], [];
    }

    method CreateSecret(id: Id, workspace: string, name: string, provider: string, plain: Bytes,
                        createdBy: Option<string>, nonce: Bytes, now: Now) returns (result: Result<Id, Error>)
      modifies this
      ensures match Create(old(State()), crypto, id, workspace, name, provider, plain, createdBy, nonce, now)
              case Ok(v) => result == Ok(id) && State() == v
              case Err(e) => result == Err(e) && State() == old(State())
    {
      var blob := Encrypt(crypto.lib, crypto.key, nonce, plain);
      if blob.Err? {
        return Err(CipherFailed(blob.error));
      }
      if id in rows || Taken(rows, workspace, name, None) {
        return Err(IntegrityError);
      }
      rows := rows[id := NewRow(workspace, name, provider, blob.value, createdBy, now.instant)];
      created := created + [id];
      result := Ok(id);
    }

    method Reveal(id: Id, now: Now) returns (result: Result<Bytes, Error>)
      modifies this
      ensures (State(), result) == DecryptSecret(old(State()), crypto, id, now)
    {
      if id !in rows {
        return Err(NotFound);
      }
      if rows[id].status == Revoked {
        return Err(IsRevoked);
      }
      var plain := Decrypt(crypto.lib, crypto.key, rows[id].blob);
      rows := rows[id := rows[id].(lastUsedAt := Some(now.instant))];
      result := if plain.Ok? then Ok(plain.value) else Err(CipherFailed(plain.error));
    }

    method RotateSecret(id: Id, newId: Id, plain: Bytes, nonce: Bytes, now: Now) returns (result: Result<Id, Error>)
      modifies this
      ensures match Rotate(old(State()), crypto, id, newId, plain, nonce, now)
              case Ok(v) => result == Ok(newId) && State() == v
              case Err(e) => result == Err(e) && State() == old(State())
    {
      if id !in rows {
        return Err(NotFound);
      }
      var prior := rows[id];
      if prior.status == Revoked {
        return Err(IsRevoked);
      }
      var blob := Encrypt(crypto.lib, crypto.key, nonce, plain);
      if blob.Err? {
        return Err(CipherFailed(blob.error));
      }
      if Taken(rows, prior.workspace, DeprecatedName(prior.name, now), Some(id)) {
        return Err(IntegrityError);
      }
      var saved := rows;
      rows := rows[id := Retire(prior, newId, now)];
      if newId in rows || Taken(rows, prior.workspace, prior.name, None) {
        rows := saved;
        return Err(IntegrityError);
      }
      rows := rows[newId :=
        NewRow(prior.workspace, prior.name, prior.provider, blob.value, prior.createdBy, now.instant)];
      created := created + [newId];
      result := Ok(newId);
    }

    method RevokeSecret(id: Id, reason: string, now: Now) returns (result: Result<Id, Error>)
      modifies this
      ensures match Revoke(old(State()), id, reason, now)
              case Ok(v) => result == Ok(id) && State() == v
              case Err(e) => result == Err(e) && State() == old(State())
      ensures result.Ok? ==> rows[id].revokedAt == Some(now.instant) && rows[id].revokeReason == reason
    {
      if id !in rows {
        return Err(NotFound);
      }
      rows := rows[id := rows[id].(status := Revoked, revokedAt := Some(now.instant), revokeReason := reason)];
      result := Ok(id);
    }

    method PurgeRevoked(grace: int, now: Now) returns (count: int)
      modifies this
      ensures State() == Purge(old(State()), grace, now)
      ensures count == |old(rows)| - |rows|
    {
      var kept := map id | id in rows && !Purgeable(rows[id], now.instant - grace) :: rows[id];
      count := |rows| - |kept|;
      rows := kept;
    }
  }

  // ------------------------------------------------------------- the invariant

  function Position(created: seq<Id>, id: Id): (i: nat)
    requires id in created
    ensures i < |created| && created[i] == id
  {
    if created[0] == id then 0 else 1 + Position(created[1..], id)
  }

  ghost predicate UniqueNames(rows: map<Id, Row>) {
    forall a, b ::
      a in rows && b in rows && rows[a].workspace == rows[b].workspace && rows[a].name == rows[b].name ==> a == b
  }

  ghost predicate Recorded(v: Vault) {
    forall id :: id in v.rows ==> id in v.created
  }

  /** A successor was created after the secret that points to it. */
  ghost predicate LinksForward(v: Vault) {
    forall id :: id in v.rows && v.rows[id].successor.Some? ==>
      id in v.created && v.rows[id].successor.value in v.created
      && Position(v.created, id) < Position(v.created, v.rows[id].successor.value)
  }

  ghost predicate StatusCoherent(row: Row) {
    && (row.status == Revoked <==> row.revokedAt.Some?)
    && (row.status == Active ==> row.successor.None? && row.rotatedAt.None?)
  }

  ghost predicate Inv(v: Vault) {
    && UniqueNames(v.rows) && Recorded(v) && LinksForward(v)
    && forall id :: id in v.rows ==> StatusCoherent(v.rows[id])
  }

  lemma {:induction false} PositionInLonger(created: seq<Id>, id: Id, more: Id)
    requires id in created
    ensures id in created + [more]
    ensures Position(created + [more], id) == Position(created, id)
  {
    assert (created + [more])[0] == created[0];
    if created[0] != id {
      assert (created + [more])[1..] == created[1..] + [more];
      PositionInLonger(created[1..], id, more);
    }
    assert id in created + [more];
  }

  lemma {:induction false} PositionOfNew(created: seq<Id>, id: Id)
    requires id !in created
    ensures id in created + [id] && Position(created + [id], id) == |created|
  {
    if created != [] {
      assert (created + [id])[1..] == created[1..] + [id];
      PositionOfNew(created[1..], id);
    }
    assert (created + [id])[|created|] == id;
  }

  lemma InsertKeepsInv(v: Vault, id: Id, row: Row)
    requires Inv(v) && id !in v.created && Insert(v, id, row).Ok?
    requires StatusCoherent(row) && row.successor.None?
    ensures Inv(Insert(v, id, row).value)
  {
    var w := Insert(v, id, row).value;
    forall x | x in v.created ensures x in w.created && Position(w.created, x) == Position(v.created, x) {
      PositionInLonger(v.created, x, id);
    }
    PositionOfNew(v.created, id);
  }

  /** When a rotation is accepted, and that its two writes are then both accepted. */
  lemma RotationAccepted(v: Vault, crypto: Crypto, id: Id, newId: Id, plain: Bytes, nonce: Bytes, now: Now)
    requires Inv(v) && newId !in v.created
    ensures Rotate(v, crypto, id, newId, plain, nonce, now).Ok? <==>
              && id in v.rows && v.rows[id].status != Revoked
              && Encrypt(crypto.lib, crypto.key, nonce, plain).Ok?
              && !Taken(v.rows, v.rows[id].workspace, DeprecatedName(v.rows[id].name, now), Some(id))
  {
    if id in v.rows {
      var prior := v.rows[id];
      var rows := v.rows[id := Retire(prior, newId, now)];
      assert |DeprecatedName(prior.name, now)| > |prior.name|;
      assert rows[id].name != prior.name;
      forall x | x in rows ensures !(rows[x].workspace == prior.workspace && rows[x].name == prior.name) {
        if x != id {
          assert rows[x] == v.rows[x];
        }
      }
    }
  }

  /** The table after an accepted rotation, as two updates. */
  lemma RotationWrites(v: Vault, crypto: Crypto, id: Id, newId: Id, plain: Bytes, nonce: Bytes, now: Now)
    returns (added: Row)
    requires newId !in v.created && Recorded(v) && Rotate(v, crypto, id, newId, plain, nonce, now).Ok?
    ensures var w := Rotate(v, crypto, id, newId, plain, nonce, now).value;
            && id != newId && id in v.rows && newId !in v.rows
            && w == Vault(v.rows[id := Retire(v.rows[id], newId, now)][newId := added], v.created + [newId])
            && added.workspace == v.rows[id].workspace && added.name == v.rows[id].name
            && added.provider == v.rows[id].provider && added.createdBy == v.rows[id].createdBy
            && Encrypt(crypto.lib, crypto.key, nonce, plain) == Ok(added.blob)
            && added.status == Active && StatusCoherent(added)
            && added.createdAt == now.instant && added.lastUsedAt == None
    ensures !Taken(v.rows, v.rows[id].workspace, DeprecatedName(v.rows[id].name, now), Some(id))
  {
    var prior := v.rows[id];
    var blob := Encrypt(crypto.lib, crypto.key, nonce, plain).value;
    added := NewRow(prior.workspace, prior.name, prior.provider, blob, prior.createdBy, now.instant);
  }

  lemma RotationKeepsNames(rows: map<Id, Row>, id: Id, newId: Id, now: Now, added: Row)
    requires UniqueNames(rows) && id in rows && newId !in rows
    requires !Taken(rows, rows[id].workspace, DeprecatedName(rows[id].name, now), Some(id))
    requires added.workspace == rows[id].workspace && added.name == rows[id].name
    ensures UniqueNames(rows[id := Retire(rows[id], newId, now)][newId := added])
  {
    assert |DeprecatedName(rows[id].name, now)| > |rows[id].name|;
  }

  lemma RotationKeepsLinks(v: Vault, id: Id, newId: Id, now: Now, added: Row)
    requires LinksForward(v) && Recorded(v) && id in v.rows && newId !in v.created && added.successor.None?
    ensures LinksForward(Vault(v.rows[id := Retire(v.rows[id], newId, now)][newId := added], v.created + [newId]))
  {
    var longer := v.created + [newId];
    forall x | x in v.created ensures x in longer && Position(longer, x) == Position(v.created, x) {
      PositionInLonger(v.created, x, newId);
    }
    PositionOfNew(v.created, newId);
  }

  lemma RotationKeepsInv(v: Vault, crypto: Crypto, id: Id, newId: Id, plain: Bytes, nonce: Bytes, now: Now)
    requires Inv(v) && newId !in v.created && Rotate(v, crypto, id, newId, plain, nonce, now).Ok?
    ensures Inv(Rotate(v, crypto, id, newId, plain, nonce, now).value)
  {
    var added := RotationWrites(v, crypto, id, newId, plain, nonce, now);
    RotationKeepsNames(v.rows, id, newId, now, added);
    RotationKeepsLinks(v, id, newId, now, added);
    assert StatusCoherent(v.rows[id]);
  }

  /** A rotation leaves its name with the new secret alone, active, and links to it. */
  lemma RotationHandsOverName(v: Vault, crypto: Crypto, id: Id, newId: Id, plain: Bytes, nonce: Bytes, now: Now)
    requires Inv(v) && newId !in v.created && Rotate(v, crypto, id, newId, plain, nonce, now).Ok?
    ensures var w := Rotate(v, crypto, id, newId, plain, nonce, now).value;
            var before := v.rows[id];
            && (forall x ::
                  (x in w.rows && w.rows[x].workspace == before.workspace && w.rows[x].name == before.name)
                  <==> x == newId)
            && w.rows[newId].status == Active && w.rows[newId].provider == before.provider
            && w.rows[newId].createdBy == before.createdBy
            && w.rows[newId].createdAt == now.instant && w.rows[newId].lastUsedAt == None
            && w.rows[id].status == Deprecated && w.rows[id].successor == Some(newId)
            && w.rows[id].rotatedAt == Some(now.instant) && w.rows[id].name == DeprecatedName(before.name, now)
            && w.rows[id].blob == before.blob
            && (forall x :: x in v.rows && x != id ==> x in w.rows && w.rows[x] == v.rows[x])
            && w.rows.Keys == v.rows.Keys + {newId}
  {
    var added := RotationWrites(v, crypto, id, newId, plain, nonce, now);
    RotationKeepsNames(v.rows, id, newId, now, added);
  }

  // -------------------------------------------------------------------- runs

  datatype Op =
    | DoCreate(id: Id, workspace: string, name: string, provider: string, plain: Bytes,
               createdBy: Option<string>, nonce: Bytes, now: Now)
    | DoDecrypt(id: Id, now: Now)
    | DoRotate(id: Id, newId: Id, plain: Bytes, nonce: Bytes, now: Now)
    | DoRevoke(id: Id, reason: string, now: Now)
    | DoPurge(grace: int, now: Now)

  function OrSame(r: Result<Vault, Error>, v: Vault): Vault {
    if r.Ok? then r.value else v
  }

  function Step(v: Vault, crypto: Crypto, op: Op): Vault {
    match op
    case DoCreate(id, workspace, name, provider, plain, createdBy, nonce, now) =>
      OrSame(Create(v, crypto, id, workspace, name, provider, plain, createdBy, nonce, now), v)
    case DoDecrypt(id, now) => DecryptSecret(v, crypto, id, now).0
    case DoRotate(id, newId, plain, nonce, now) => OrSame(Rotate(v, crypto, id, newId, plain, nonce, now), v)
    case DoRevoke(id, reason, now) => OrSame(Revoke(v, id, reason, now), v)
    case DoPurge(grace, now) => Purge(v, grace, now)
  }

  function Run(v: Vault, crypto: Crypto, ops: seq<Op>): Vault
    decreases ops
  {
    if ops == [] then v else Run(Step(v, crypto, ops[0]), crypto, ops[1..])
  }

  predicate Fresh(op: Op, created: seq<Id>) {
    (op.DoCreate? ==> op.id !in created) && (op.DoRotate? ==> op.newId !in created)
  }

  /** Generated identifiers were never used before. */
  predicate FreshIds(v: Vault, crypto: Crypto, ops: seq<Op>)
    decreases ops
  {
    ops != [] ==> Fresh(ops[0], v.created) && FreshIds(Step(v, crypto, ops[0]), crypto, ops[1..])
  }

  lemma CreateKeepsInv(v: Vault, crypto: Crypto, op: Op)
    requires Inv(v) && op.DoCreate? && op.id !in v.created
    ensures Inv(Step(v, crypto, op))
  {
    var r := Create(v, crypto, op.id, op.workspace, op.name, op.provider, op.plain, op.createdBy, op.nonce, op.now);
    if r.Ok? {
      var blob := Encrypt(crypto.lib, crypto.key, op.nonce, op.plain).value;
      InsertKeepsInv(v, op.id, NewRow(op.workspace, op.name, op.provider, blob, op.createdBy, op.now.instant));
    }
  }

  lemma DecryptionKeepsInv(v: Vault, crypto: Crypto, id: Id, now: Now)
    requires Inv(v)
    ensures Inv(DecryptSecret(v, crypto, id, now).0)
  {
  }

  lemma RevocationKeepsInv(v: Vault, id: Id, reason: string, now: Now)
    requires Inv(v)
    ensures Inv(OrSame(Revoke(v, id, reason, now), v))
  {
  }

  lemma PurgeKeepsInv(v: Vault, grace: int, now: Now)
    requires Inv(v)
    ensures Inv(Purge(v, grace, now))
  {
  }

  lemma StepKeepsInv(v: Vault, crypto: Crypto, op: Op)
    requires Inv(v) && Fresh(op, v.created)
    ensures Inv(Step(v, crypto, op))
  {
    match op
    case DoCreate(_, _, _, _, _, _, _, _) => CreateKeepsInv(v, crypto, op);
    case DoRotate(id, newId, plain, nonce, now) =>
      if Rotate(v, crypto, id, newId, plain, nonce, now).Ok? {
        RotationKeepsInv(v, crypto, id, newId, plain, nonce, now);
      }
    case DoDecrypt(id, now) => DecryptionKeepsInv(v, crypto, id, now);
    case DoRevoke(id, reason, now) => RevocationKeepsInv(v, id, reason, now);
    case DoPurge(grace, now) => PurgeKeepsInv(v, grace, now);
  }

  lemma {:induction false} RunKeepsInv(v: Vault, crypto: Crypto, ops: seq<Op>)
    requires Inv(v) && FreshIds(v, crypto, ops)
    ensures Inv(Run(v, crypto, ops))
    decreases ops
  {
    if ops != [] {
      StepKeepsInv(v, crypto, ops[0]);
      RunKeepsInv(Step(v, crypto, ops[0]), crypto, ops[1..]);
    }
  }

  ghost predicate RevokedOrGone(v: Vault, id: Id) {
    id in v.created && (id in v.rows ==> v.rows[id].status == Revoked)
  }

  /** Revocation is final: the secret is never decrypted or rotated again. */
  lemma {:induction false} RevokedStaysRevoked(v: Vault, crypto: Crypto, ops: seq<Op>, id: Id)
    requires RevokedOrGone(v, id) && FreshIds(v, crypto, ops)
    ensures var w := Run(v, crypto, ops);
            && RevokedOrGone(w, id)
            && (forall now :: DecryptSecret(w, crypto, id, now).1 == Err(if id in w.rows then IsRevoked else NotFound))
            && (forall newId, plain, nonce, now :: Rotate(w, crypto, id, newId, plain, nonce, now).Err?)
    decreases ops
  {
    if ops != [] {
      RevokedStaysRevoked(Step(v, crypto, ops[0]), crypto, ops[1..], id);
    }
  }

  /** Revoking works on every existing secret, ends its use for good and touches no other secret. */
  lemma RevocationIsFinalAndLocal(v: Vault, crypto: Crypto, id: Id, reason: string, now: Now, ops: seq<Op>)
    requires Recorded(v)
    ensures Revoke(v, id, reason, now).Ok? <==> id in v.rows
    ensures Revoke(v, id, reason, now).Ok? ==>
              var w := Revoke(v, id, reason, now).value;
              && (forall x, t :: x != id ==> DecryptSecret(w, crypto, x, t).1 == DecryptSecret(v, crypto, x, t).1)
              && (FreshIds(w, crypto, ops) ==> forall t :: DecryptSecret(Run(w, crypto, ops), crypto, id, t).1.Err?)
  {
    if id in v.rows {
      var w := Revoke(v, id, reason, now).value;
      if FreshIds(w, crypto, ops) {
        RevokedStaysRevoked(w, crypto, ops, id);
      }
    }
  }

  // ------------------------------------------------------------- taken names

  predicate NeverPurges(ops: seq<Op>) {
    forall op :: op in ops ==> !op.DoPurge?
  }

  lemma TakenAfterRotation(v: Vault, crypto: Crypto, op: Op, workspace: string, name: string)
    requires Inv(v) && op.DoRotate? && op.newId !in v.created && Taken(v.rows, workspace, name, None)
    ensures Taken(Step(v, crypto, op).rows, workspace, name, None)
  {
    if Rotate(v, crypto, op.id, op.newId, op.plain, op.nonce, op.now).Ok? {
      var added := RotationWrites(v, crypto, op.id, op.newId, op.plain, op.nonce, op.now);
      var w := Step(v, crypto, op);
      var x :| x in v.rows && v.rows[x].workspace == workspace && v.rows[x].name == name;
      if x == op.id {
        assert w.rows[op.newId].workspace == workspace && w.rows[op.newId].name == name;
      } else {
        assert x in w.rows && w.rows[x] == v.rows[x];
      }
    }
  }

  lemma StepKeepsTaken(v: Vault, crypto: Crypto, op: Op, workspace: string, name: string)
    requires Inv(v) && Fresh(op, v.created) && !op.DoPurge? && Taken(v.rows, workspace, name, None)
    ensures Taken(Step(v, crypto, op).rows, workspace, name, None)
  {
    if op.DoRotate? {
      TakenAfterRotation(v, crypto, op, workspace, name);
    } else {
      var x :| x in v.rows && v.rows[x].workspace == workspace && v.rows[x].name == name;
      var w := Step(v, crypto, op);
      assert x in w.rows && w.rows[x].workspace == workspace && w.rows[x].name == name;
    }
  }

  lemma {:induction false} NameStaysTaken(v: Vault, crypto: Crypto, ops: seq<Op>, workspace: string, name: string)
    requires Inv(v) && FreshIds(v, crypto, ops) && NeverPurges(ops) && Taken(v.rows, workspace, name, None)
    ensures Taken(Run(v, crypto, ops).rows, workspace, name, None)
    decreases ops
  {
    if ops != [] {
      assert ops[0] in ops && forall op :: op in ops[1..] ==> op in ops;
      StepKeepsTaken(v, crypto, ops[0], workspace, name);
      StepKeepsInv(v, crypto, ops[0]);
      NameStaysTaken(Step(v, crypto, ops[0]), crypto, ops[1..], workspace, name);
    }
  }

  /**
    A creation needs a name that no row of the workspace has, and takes it: until something is purged
    no second secret of that name can be created, also after rotations and revocations.
   */
  lemma NameIsCreatedOnce(v: Vault, crypto: Crypto, op: Op, ops: seq<Op>, again: Op)
    requires Inv(v) && op.DoCreate? && op.id !in v.created
    requires FreshIds(Step(v, crypto, op), crypto, ops) && NeverPurges(ops)
    requires again.DoCreate? && again.workspace == op.workspace && again.name == op.name
    ensures Step(v, crypto, op) != v <==>
              Encrypt(crypto.lib, crypto.key, op.nonce, op.plain).Ok? && !Taken(v.rows, op.workspace, op.name, None)
    ensures Step(v, crypto, op) != v ==>
              Step(Run(Step(v, crypto, op), crypto, ops), crypto, again) == Run(Step(v, crypto, op), crypto, ops)
  {
    var w := Step(v, crypto, op);
    if Create(v, crypto, op.id, op.workspace, op.name, op.provider, op.plain, op.createdBy, op.nonce, op.now).Ok? {
      assert w.rows[op.id].workspace == op.workspace && w.rows[op.id].name == op.name;
      assert w.created != v.created;
      StepKeepsInv(v, crypto, op);
      NameStaysTaken(w, crypto, ops, op.workspace, op.name);
    }
  }

  // --------------------------------------------------- decryptions leave no trace

  ghost predicate SameButLastUse(v: Vault, w: Vault) {
    && v.created == w.created && v.rows.Keys == w.rows.Keys
    && forall id :: id in v.rows ==> w.rows[id] == v.rows[id].(lastUsedAt := w.rows[id].lastUsedAt)
  }

  lemma SameTaken(v: Vault, w: Vault, workspace: string, name: string, except: Option<Id>)
    requires SameButLastUse(v, w)
    ensures Taken(v.rows, workspace, name, except) <==> Taken(w.rows, workspace, name, except)
  {
    if id :| id in v.rows && Some(id) != except && v.rows[id].workspace == workspace && v.rows[id].name == name {
      assert id in w.rows && w.rows[id].workspace == workspace && w.rows[id].name == name;
    }
    if id :| id in w.rows && Some(id) != except && w.rows[id].workspace == workspace && w.rows[id].name == name {
      assert id in v.rows && v.rows[id].workspace == workspace && v.rows[id].name == name;
    }
  }

  lemma SameInsert(v: Vault, w: Vault, id: Id, row: Row)
    requires SameButLastUse(v, w)
    ensures Insert(v, id, row).Ok? <==> Insert(w, id, row).Ok?
    ensures SameButLastUse(OrSame(Insert(v, id, row), v), OrSame(Insert(w, id, row), w))
  {
    SameTaken(v, w, row.workspace, row.name, None);
  }

  lemma SameRotation(v: Vault, w: Vault, crypto: Crypto, op: Op)
    requires SameButLastUse(v, w) && op.DoRotate?
    ensures SameButLastUse(Step(v, crypto, op), Step(w, crypto, op))
  {
    if op.id in v.rows && v.rows[op.id].status != Revoked {
      var prior := v.rows[op.id];
      var blob := Encrypt(crypto.lib, crypto.key, op.nonce, op.plain);
      SameTaken(v, w, prior.workspace, DeprecatedName(prior.name, op.now), Some(op.id));
      if blob.Ok? {
        var x := v.(rows := v.rows[op.id := Retire(prior, op.newId, op.now)]);
        var y := w.(rows := w.rows[op.id := Retire(w.rows[op.id], op.newId, op.now)]);
        var row := NewRow(prior.workspace, prior.name, prior.provider, blob.value, prior.createdBy, op.now.instant);
        SameInsert(x, y, op.newId, row);
      }
    }
  }

  lemma StepKeepsSame(v: Vault, w: Vault, crypto: Crypto, op: Op)
    requires SameButLastUse(v, w)
    ensures SameButLastUse(Step(v, crypto, op), Step(w, crypto, op))
  {
    match op
    case DoCreate(id, workspace, name, provider, plain, createdBy, nonce, now) =>
      var blob := Encrypt(crypto.lib, crypto.key, nonce, plain);
      if blob.Ok? {
        SameInsert(v, w, id, NewRow(workspace, name, provider, blob.value, createdBy, now.instant));
      }
    case DoRotate(_, _, _, _, _) => SameRotation(v, w, crypto, op);
    case _ =>
  }

  function WithoutDecryptions(ops: seq<Op>): seq<Op> {
    if ops == [] then [] else (if ops[0].DoDecrypt? then [] else [ops[0]]) + WithoutDecryptions(ops[1..])
  }

  lemma {:induction false} DecryptionsDropOut(v: Vault, w: Vault, crypto: Crypto, ops: seq<Op>)
    requires SameButLastUse(v, w)
    ensures SameButLastUse(Run(v, crypto, ops), Run(w, crypto, WithoutDecryptions(ops)))
    decreases ops
  {
    if ops != [] {
      var rest := WithoutDecryptions(ops[1..]);
      if ops[0].DoDecrypt? {
        assert WithoutDecryptions(ops) == rest;
        DecryptionsDropOut(Step(v, crypto, ops[0]), w, crypto, ops[1..]);
      } else {
        assert WithoutDecryptions(ops) == [ops[0]] + rest && ([ops[0]] + rest)[1..] == rest;
        StepKeepsSame(v, w, crypto, ops[0]);
        DecryptionsDropOut(Step(v, crypto, ops[0]), Step(w, crypto, ops[0]), crypto, ops[1..]);
      }
    }
  }

  /**
    Decryptions anywhere in two copies of one run change nothing but the times of last use: all later
    decryptions answer alike, whenever they are made.
   */
  lemma DecryptionsAreInvisible(v: Vault, crypto: Crypto, a: seq<Op>, b: seq<Op>, id: Id, early: Now, late: Now)
    requires WithoutDecryptions(a) == WithoutDecryptions(b)
    ensures var x, y := Run(v, crypto, a), Run(v, crypto, b);
            SameButLastUse(x, y) && DecryptSecret(x, crypto, id, early).1 == DecryptSecret(y, crypto, id, late).1
  {
    DecryptionsDropOut(v, v, crypto, a);
    DecryptionsDropOut(v, v, crypto, b);
  }

  /** Status only moves from active to deprecated to revoked; the stored value never changes. */
  ghost predicate Follows(before: Row, after: Row) {
    && after.blob == before.blob && after.workspace == before.workspace && after.provider == before.provider
    && after.createdAt == before.createdAt && after.createdBy == before.createdBy
    && (before.status == Deprecated ==> after.status != Active)
    && (before.status == Revoked ==> after.status == Revoked)
  }

  lemma {:induction false} RunOnlyAdvances(v: Vault, crypto: Crypto, ops: seq<Op>, id: Id)
    requires Recorded(v) && FreshIds(v, crypto, ops) && id in v.rows
    ensures var w := Run(v, crypto, ops);
            id in w.rows ==> Follows(v.rows[id], w.rows[id])
    decreases ops
  {
    if ops != [] {
      var w := Step(v, crypto, ops[0]);
      assert id in w.rows ==> Follows(v.rows[id], w.rows[id]);
      forall x | x in w.rows ensures x in w.created {}
      if id in w.rows {
        RunOnlyAdvances(w, crypto, ops[1..], id);
      } else {
        GoneStaysGone(w, crypto, ops[1..], id);
      }
    }
  }

  lemma {:induction false} GoneStaysGone(v: Vault, crypto: Crypto, ops: seq<Op>, id: Id)
    requires FreshIds(v, crypto, ops) && id !in v.rows && id in v.created
    ensures id !in Run(v, crypto, ops).rows
    decreases ops
  {
    if ops != [] {
      GoneStaysGone(Step(v, crypto, ops[0]), crypto, ops[1..], id);
    }
  }

  /**
    A stored plaintext comes back for as long as the secret is neither revoked nor purged,
    whatever else happens; except for the empty plaintext.
   */
  lemma StoredSecretDecrypts(v: Vault, crypto: Crypto, id: Id, plain: Bytes, nonce: Bytes, ops: seq<Op>, now: Now)
    requires Recorded(v) && Lawful(crypto.lib) && |nonce| == NONCE_BYTES && FreshIds(v, crypto, ops)
    requires id in v.rows && Encrypt(crypto.lib, crypto.key, nonce, plain) == Ok(v.rows[id].blob)
    requires id in Run(v, crypto, ops).rows && Run(v, crypto, ops).rows[id].status != Revoked
    ensures DecryptSecret(Run(v, crypto, ops), crypto, id, now).1 == Ok(plain) <==> !crypto.lib.available || plain != []
  {
    RunOnlyAdvances(v, crypto, ops, id);
    DecryptsWhatItEncrypted(crypto.lib, crypto.lib, crypto.key, nonce, plain);
  }

  /** A created secret decrypts to its plaintext through any run that neither revokes nor purges it. */
  lemma CreatedSecretDecrypts(v: Vault, crypto: Crypto, op: Op, ops: seq<Op>, now: Now)
    requires Recorded(v) && Lawful(crypto.lib) && op.DoCreate? && |op.nonce| == NONCE_BYTES && op.id !in v.created
    requires Create(v, crypto, op.id, op.workspace, op.name, op.provider, op.plain, op.createdBy, op.nonce, op.now).Ok?
    requires FreshIds(Step(v, crypto, op), crypto, ops)
    requires var w := Run(Step(v, crypto, op), crypto, ops);
             op.id in w.rows && w.rows[op.id].status != Revoked
    ensures var w := Run(Step(v, crypto, op), crypto, ops);
            DecryptSecret(w, crypto, op.id, now).1 == Ok(op.plain) <==> !crypto.lib.available || op.plain != []
  {
    StoredSecretDecrypts(Step(v, crypto, op), crypto, op.id, op.plain, op.nonce, ops, now);
  }

  /** So does the successor made by a rotation. */
  lemma RotatedSecretDecrypts(v: Vault, crypto: Crypto, op: Op, ops: seq<Op>, now: Now)
    requires Recorded(v) && Lawful(crypto.lib) && op.DoRotate? && |op.nonce| == NONCE_BYTES && op.newId !in v.created
    requires Rotate(v, crypto, op.id, op.newId, op.plain, op.nonce, op.now).Ok?
    requires FreshIds(Step(v, crypto, op), crypto, ops)
    requires var w := Run(Step(v, crypto, op), crypto, ops);
             op.newId in w.rows && w.rows[op.newId].status != Revoked
    ensures var w := Run(Step(v, crypto, op), crypto, ops);
            DecryptSecret(w, crypto, op.newId, now).1 == Ok(op.plain) <==> !crypto.lib.available || op.plain != []
  {
    var added := RotationWrites(v, crypto, op.id, op.newId, op.plain, op.nonce, op.now);
    StoredSecretDecrypts(Step(v, crypto, op), crypto, op.newId, op.plain, op.nonce, ops, now);
  }

  /** Following successors from an id; it ends because each link goes to a later one. */
  ghost function Chain(v: Vault, id: Id): (ids: seq<Id>)
    requires LinksForward(v) && id in v.created
    ensures ids != [] && ids[0] == id
    decreases |v.created| - Position(v.created, id)
  {
    if id in v.rows && v.rows[id].successor.Some? then [id] + Chain(v, v.rows[id].successor.value) else [id]
  }

  /** A successor chain never meets the same secret twice. */
  lemma {:induction false} ChainAscends(v: Vault, id: Id)
    requires LinksForward(v) && id in v.created
    ensures forall i :: 0 <= i < |Chain(v, id)| ==> Chain(v, id)[i] in v.created
    ensures forall i, j :: 0 <= i < j < |Chain(v, id)| ==>
              Position(v.created, Chain(v, id)[i]) < Position(v.created, Chain(v, id)[j])
    decreases |v.created| - Position(v.created, id)
  {
    if id in v.rows && v.rows[id].successor.Some? {
      var next := v.rows[id].successor.value;
      ChainAscends(v, next);
      var rest := Chain(v, next);
      forall j | 0 <= j < |rest| ensures Position(v.created, id) < Position(v.created, rest[j]) {
        if j > 0 {
          assert Position(v.created, rest[0]) < Position(v.created, rest[j]);
        }
      }
    }
  }

  /** Purging removes exactly the revoked secrets whose grace period is over. */
  lemma PurgeRemovesExactly(v: Vault, grace: int, now: Now, id: Id)
    requires Inv(v) && id in v.rows
    ensures id in Purge(v, grace, now).rows <==>
              v.rows[id].status != Revoked || now.instant - v.rows[id].revokedAt.value <= grace
    ensures id in Purge(v, grace, now).rows ==> Purge(v, grace, now).rows[id] == v.rows[id]
  {
    assert StatusCoherent(v.rows[id]);
  }

  // ------------------------------------------------- what is recorded, and when

  predicate NeverRevokes(ops: seq<Op>, id: Id) {
    forall op :: op in ops ==> !(op.DoRevoke? && op.id == id)
  }

  /** Some purge in the run comes more than its grace period after `at`. */
  predicate PurgedAfter(ops: seq<Op>, at: int) {
    exists op :: op in ops && op.DoPurge? && op.now.instant - at > op.grace
  }

  ghost predicate RevokedAt(v: Vault, id: Id, at: int, reason: string) {
    && id in v.created && id in v.rows && v.rows[id].status == Revoked
    && v.rows[id].revokedAt == Some(at) && v.rows[id].revokeReason == reason
  }

  lemma RevokedStep(v: Vault, crypto: Crypto, op: Op, id: Id, at: int, reason: string)
    requires RevokedAt(v, id, at, reason) && Fresh(op, v.created) && !(op.DoRevoke? && op.id == id)
    ensures var gone := op.DoPurge? && op.now.instant - at > op.grace;
            && (gone ==> id !in Step(v, crypto, op).rows && id in Step(v, crypto, op).created)
            && (!gone ==> RevokedAt(Step(v, crypto, op), id, at, reason))
  {
  }

  lemma {:induction false} KeptForGrace(v: Vault, crypto: Crypto, ops: seq<Op>, id: Id, at: int, reason: string)
    requires RevokedAt(v, id, at, reason) && FreshIds(v, crypto, ops) && NeverRevokes(ops, id)
    ensures var w := Run(v, crypto, ops);
            && (id in w.rows <==> !PurgedAfter(ops, at))
            && (id in w.rows ==> RevokedAt(w, id, at, reason))
    decreases ops
  {
    if ops != [] {
      assert ops == [ops[0]] + ops[1..];
      assert ops[0] in ops && forall op :: op in ops[1..] ==> op in ops;
      RevokedStep(v, crypto, ops[0], id, at, reason);
      if ops[0].DoPurge? && ops[0].now.instant - at > ops[0].grace {
        GoneStaysGone(Step(v, crypto, ops[0]), crypto, ops[1..], id);
      } else {
        KeptForGrace(Step(v, crypto, ops[0]), crypto, ops[1..], id, at, reason);
        assert PurgedAfter(ops, at) <==> PurgedAfter(ops[1..], at);
      }
    }
  }

  /**
    The grace period runs from the revocation: over any run in which it is not revoked again, the
    secret stays, with the time and reason of its revocation, exactly until a purge more than its
    grace period later.
   */
  lemma RevokedIsKeptForGrace(v: Vault, crypto: Crypto, id: Id, reason: string, now: Now, ops: seq<Op>)
    requires Recorded(v) && id in v.rows && NeverRevokes(ops, id)
    requires FreshIds(OrSame(Revoke(v, id, reason, now), v), crypto, ops)
    ensures var w := Run(OrSame(Revoke(v, id, reason, now), v), crypto, ops);
            && (id in w.rows <==> !PurgedAfter(ops, now.instant))
            && (id in w.rows ==> w.rows[id].revokedAt == Some(now.instant) && w.rows[id].revokeReason == reason)
  {
    KeptForGrace(OrSame(Revoke(v, id, reason, now), v), crypto, ops, id, now.instant, reason);
  }

  /** What a creation was given stays on the row, over any run that does not purge it. */
  lemma CreationIsRecorded(v: Vault, crypto: Crypto, op: Op, ops: seq<Op>)
    requires Recorded(v) && op.DoCreate? && op.id !in v.created
    requires Create(v, crypto, op.id, op.workspace, op.name, op.provider, op.plain, op.createdBy, op.nonce, op.now).Ok?
    requires FreshIds(Step(v, crypto, op), crypto, ops)
    ensures var row := Step(v, crypto, op).rows[op.id];
            && row.name == op.name && row.status == Active && row.lastUsedAt == None && row.rotatedAt == None
    ensures var w := Run(Step(v, crypto, op), crypto, ops);
            op.id in w.rows ==>
              && w.rows[op.id].workspace == op.workspace && w.rows[op.id].provider == op.provider
              && w.rows[op.id].createdBy == op.createdBy && w.rows[op.id].createdAt == op.now.instant
  {
    RunOnlyAdvances(Step(v, crypto, op), crypto, ops, op.id);
  }

  predicate NeverDecrypts(ops: seq<Op>, id: Id) {
    forall op :: op in ops ==> !(op.DoDecrypt? && op.id == id)
  }

  lemma {:induction false} LastUseStays(v: Vault, crypto: Crypto, ops: seq<Op>, id: Id)
    requires Recorded(v) && FreshIds(v, crypto, ops) && NeverDecrypts(ops, id) && id in v.rows
    ensures var w := Run(v, crypto, ops); id in w.rows ==> w.rows[id].lastUsedAt == v.rows[id].lastUsedAt
    decreases ops
  {
    if ops != [] {
      var w := Step(v, crypto, ops[0]);
      assert ops[0] in ops && forall op :: op in ops[1..] ==> op in ops;
      assert id in w.rows ==> w.rows[id].lastUsedAt == v.rows[id].lastUsedAt;
      forall x | x in w.rows ensures x in w.created {}
      if id in w.rows {
        LastUseStays(w, crypto, ops[1..], id);
      } else {
        GoneStaysGone(w, crypto, ops[1..], id);
      }
    }
  }

  /** The time of last use is that of the last decryption that was not refused, even if the cipher failed. */
  lemma LastUseIsLastDecryption(v: Vault, crypto: Crypto, id: Id, now: Now, ops: seq<Op>)
    requires Recorded(v) && id in v.rows && v.rows[id].status != Revoked && NeverDecrypts(ops, id)
    requires FreshIds(DecryptSecret(v, crypto, id, now).0, crypto, ops)
    ensures var w := Run(DecryptSecret(v, crypto, id, now).0, crypto, ops);
            id in w.rows ==> w.rows[id].lastUsedAt == Some(now.instant)
  {
    LastUseStays(DecryptSecret(v, crypto, id, now).0, crypto, ops, id);
  }

  /** Deprecated names of one secret differ when its rotations have different times. */
  lemma DeprecatedNamesDiffer(name: string, a: Now, b: Now)
    ensures DeprecatedName(name, a) == DeprecatedName(name, b) <==> a.text == b.text
    ensures name <= DeprecatedName(name, a) && DeprecatedName(name, a) != name
  {
    var head := name + "::deprecated::";
    assert DeprecatedName(name, a) == head + a.text && DeprecatedName(name, b) == head + b.text;
    assert DeprecatedName(name, a)[|head|..] == a.text && DeprecatedName(name, b)[|head|..] == b.text;
    assert DeprecatedName(name, a)[..|name|] == name;
  }

  /** A rotation is refused when its deprecated name is already taken. */
  lemma RotationCanBeRefused(crypto: Crypto, now: Now, plain: Bytes, nonce: Bytes)
    requires Encrypt(crypto.lib, crypto.key, nonce, plain).Ok?
    ensures var held := NewRow("w", DeprecatedName("n", now), "p", "", None, 0);
            var v := Vault(map["a" := NewRow("w", "n", "p", "", None, 0), "b" := held], ["a", "b"]);
            Inv(v) && Rotate(v, crypto, "a", "c", plain, nonce, now) == Err(IntegrityError)
  {
    var held := NewRow("w", DeprecatedName("n", now), "p", "", None, 0);
    var rows := map["a" := NewRow("w", "n", "p", "", None, 0), "b" := held];
    assert |held.name| > |"n"|;
    assert "a" != "b" && rows["b"] == held;
  }

  /** An unknown secret is reported as such by every operation, a revoked one by decryption and rotation. */
  lemma RefusalErrors(v: Vault, crypto: Crypto, op: Op)
    ensures op.DoDecrypt? ==>
              var r := DecryptSecret(v, crypto, op.id, op.now).1;
              && (r == Err(NotFound) <==> op.id !in v.rows)
              && (r == Err(IsRevoked) <==> op.id in v.rows && v.rows[op.id].status == Revoked)
    ensures op.DoRotate? ==>
              var r := Rotate(v, crypto, op.id, op.newId, op.plain, op.nonce, op.now);
              && (r == Err(NotFound) <==> op.id !in v.rows)
              && (r == Err(IsRevoked) <==> op.id in v.rows && v.rows[op.id].status == Revoked)
    ensures op.DoRevoke? && op.id !in v.rows ==> Revoke(v, op.id, op.reason, op.now) == Err(NotFound)
  {
  }

  /** The error of a failed creation: that of the cipher, or of the uniqueness constraint. */
  lemma CreationErrors(v: Vault, crypto: Crypto, op: Op)
    requires op.DoCreate?
    ensures var blob := Encrypt(crypto.lib, crypto.key, op.nonce, op.plain);
            var r := Create(v, crypto, op.id, op.workspace, op.name, op.provider, op.plain, op.createdBy,
                            op.nonce, op.now);
            r.Err? ==> r.error == if blob.Err? then CipherFailed(blob.error) else IntegrityError
  {
  }

  /** Apart from purging, an operation changes the rows it names and no other. */
  lemma StepConcernsItsRows(v: Vault, crypto: Crypto, op: Op, id: Id)
    requires !op.DoPurge? && id != op.id && !(op.DoRotate? && id == op.newId)
    ensures id in Step(v, crypto, op).rows <==> id in v.rows
    ensures id in v.rows ==> Step(v, crypto, op).rows[id] == v.rows[id]
  {
  }
}
