/** API keys at rest: a store with revocation tombstones, and the authentication that reads it. */
module ApiKeyStore {
  import opened Wrappers
  import opened ApiKeyFormat
  import opened Utf8
  import B64 = Base64Url

  type Instant = int

  /** The digest a secret is stored as; distinct secrets are taken to have distinct digests. */
  datatype Digest = Sha256(secret: string)

  /** A stored key. The name and the scopes play no part in what follows. */
  datatype ApiKey = ApiKey(
    id: nat, prefix: string, hash: Digest, environment: Environment, owner: string,
    createdAt: Instant, expiresAt: Option<Instant>, lastUsedAt: Option<Instant>, revokedAt: Option<Instant>)

  type Keys = map<string, ApiKey>

  predicate HasId(keys: Keys, id: nat) {
    exists prefix | prefix in keys :: keys[prefix].id == id
  }

  /** Keys are filed under their own prefix, and no two share an id. */
  ghost predicate Valid(keys: Keys) {
    && (forall prefix | prefix in keys :: keys[prefix].prefix == prefix)
    && (forall a, b | a in keys && b in keys && keys[a].id == keys[b].id :: a == b)
  }

  /** Where the key with this id is filed. */
  function WhereId(keys: Keys, id: nat): (r: Option<string>)
    requires Valid(keys)
    ensures r.Some? ==> r.value in keys && keys[r.value].id == id
    ensures r.None? <==> !HasId(keys, id)
  {
    if HasId(keys, id) then var prefix :| prefix in keys && keys[prefix].id == id; Some(prefix) else None
  }

  // ----- Atomic operations

  datatype Op =
    | Insert(key: ApiKey)
    | Lookup(prefix: string)
    | Revoke(revoked: nat, at: Instant)
    | Touch(touched: nat, when: Instant)

  /** What an operation leaves. An insert whose id is taken does not happen: ids are unique. */
  function After(keys: Keys, op: Op): Keys
    requires Valid(keys)
  {
    match op
    case Insert(key) => if key.prefix in keys || HasId(keys, key.id) then keys else keys[key.prefix := key]
    case Lookup(_) => keys
    case Revoke(id, at) =>
      if Revocable(keys, id) then
        var prefix := WhereId(keys, id).value;
        keys[prefix := keys[prefix].(revokedAt := Some(at))]
      else keys
    case Touch(id, when) =>
      var prefix := WhereId(keys, id);
      if prefix.Some? then keys[prefix.value := keys[prefix.value].(lastUsedAt := Some(when))] else keys
  }

  /** A revocation takes effect: the key exists and has no tombstone yet. */
  predicate Revocable(keys: Keys, id: nat)
    requires Valid(keys)
  {
    WhereId(keys, id).Some? && keys[WhereId(keys, id).value].revokedAt.None?
  }

  function Found(keys: Keys, prefix: string): Option<ApiKey> {
    if prefix in keys then Some(keys[prefix]) else None
  }

  class MemoryApiKeyStore {
    var keys: Keys

    constructor ()
      ensures keys == map[] && Valid(keys)
    {
      keys := map[];
    }

    method InsertKey(key: ApiKey) returns (stored: bool)
      requires Valid(keys) && !HasId(keys, key.id)
      modifies this
      ensures Valid(keys) && keys == After(old(keys), Insert(key))
      ensures stored == (key.prefix !in old(keys))
    {
      if key.prefix in keys {
        return false;
      }
      keys := keys[key.prefix := key];
      return true;
    }

    method FindByPrefix(prefix: string) returns (r: Option<ApiKey>)
      ensures r == Found(keys, prefix)
    {
      r := if prefix in keys then Some(keys[prefix]) else None;
    }

    method RevokeKey(id: nat, now: Instant) returns (revoked: bool)
      requires Valid(keys)
      modifies this
      ensures Valid(keys) && keys == After(old(keys), Revoke(id, now))
      ensures revoked == Revocable(old(keys), id)
    {
      var prefix := WhereId(keys, id);
      if prefix.None? {
        return false;
      }
      var key := keys[prefix.value];
      if key.revokedAt.Some? {
        return false;
      }
      keys := keys[prefix.value := key.(revokedAt := Some(now))];
      return true;
    }

    method TouchKey(id: nat, at: Instant)
      requires Valid(keys)
      modifies this
      ensures Valid(keys) && keys == After(old(keys), Touch(id, at))
    {
      var prefix := WhereId(keys, id);
      if prefix.Some? {
        keys := keys[prefix.value := keys[prefix.value].(lastUsedAt := Some(at))];
      }
    }
  }

  // ----- Authentication

  datatype AuthError = InvalidCredentials | Revoked | Expired

  /** The checks made on what the lookup found: the secret before anything that would tell the key's state. */
  function Verdict(
      found: Option<ApiKey>, environment: Environment, secret: string, now: Instant): Result<ApiKey, AuthError>
  {
    match found
    case None => Err(InvalidCredentials)
    case Some(key) =>
      if Sha256(secret) != key.hash then Err(InvalidCredentials)
      else if key.environment != environment then Err(InvalidCredentials)
      else if key.revokedAt.Some? then Err(Revoked)
      else if key.expiresAt.Some? && now >= key.expiresAt.value then Err(Expired)
      else Ok(key)
  }

  /** `authenticate`, given the keys its one lookup sees. */
  function Authenticated(keys: Keys, accept: set<Environment>, presented: string, now: Instant): Result<ApiKey, AuthError> {
    match Parse(presented)
    case None => Err(InvalidCredentials)
    case Some((environment, prefix, secret)) =>
      if environment !in accept then Err(InvalidCredentials)
      else Verdict(Found(keys, prefix), environment, secret, now)
  }

  method Authenticate(store: MemoryApiKeyStore, accept: set<Environment>, presented: string, now: Instant)
    returns (r: Result<ApiKey, AuthError>)
    ensures r == Authenticated(store.keys, accept, presented, now)
  {
    var parsed := Parse(presented);
    if parsed.None? {
      return Err(InvalidCredentials);
    }
    var (environment, prefix, secret) := parsed.value;
    if environment !in accept {
      return Err(InvalidCredentials);
    }
    var found := store.FindByPrefix(prefix);
    if found.None? {
      return Err(InvalidCredentials);
    }
    var key := found.value;
    if Sha256(secret) != key.hash || key.environment != environment {
      return Err(InvalidCredentials);
    }
    if key.revokedAt.Some? {
      return Err(Revoked);
    }
    if key.expiresAt.Some? && now >= key.expiresAt.value {
      return Err(Expired);
    }
    return Ok(key);
  }

  /** A presented key is accepted exactly when it prints a live record's environment, prefix and secret. */
  lemma AcceptedExactly(keys: Keys, accept: set<Environment>, presented: string, now: Instant, key: ApiKey)
    requires Valid(keys)
    ensures Authenticated(keys, accept, presented, now) == Ok(key) <==>
            && key.prefix in keys && keys[key.prefix] == key
            && key.environment in accept
            && key.revokedAt.None? && (key.expiresAt.Some? ==> now < key.expiresAt.value)
            && ValidPrefix(key.prefix) && ValidSecret(key.hash.secret)
            && |presented| <= MAX_PRESENTED_LENGTH
            && presented == Print(key.environment, key.prefix, key.hash.secret)
  {
    hide Parse, Print, ValidPrefix, ValidSecret;
    ParseExact(presented, key.environment, key.prefix, key.hash.secret);
  }

  /** The string is the printed form of the record: of an accepted environment, well formed, at most 256 characters. */
  ghost predicate Presents(keys: Keys, accept: set<Environment>, presented: string, key: ApiKey) {
    && key.prefix in keys && keys[key.prefix] == key && key.environment in accept
    && ValidPrefix(key.prefix) && ValidSecret(key.hash.secret)
    && |presented| <= 256
    && presented == Print(key.environment, key.prefix, key.hash.secret)
  }

  /** A string presents at most one record. */
  lemma PresentsOne(keys: Keys, accept: set<Environment>, presented: string, a: ApiKey, b: ApiKey)
    requires Presents(keys, accept, presented, a) && Presents(keys, accept, presented, b)
    ensures a == b
  {
    hide Parse, Print, ValidPrefix, ValidSecret;
    ParseExact(presented, a.environment, a.prefix, a.hash.secret);
    ParseExact(presented, b.environment, b.prefix, b.hash.secret);
  }

  /** What is answered to whoever holds the key: its record, or why it is no longer good. */
  lemma HolderIsTold(keys: Keys, accept: set<Environment>, presented: string, now: Instant, key: ApiKey)
    requires Valid(keys) && Presents(keys, accept, presented, key)
    ensures Authenticated(keys, accept, presented, now) ==
            if key.revokedAt.Some? then Err(Revoked)
            else if key.expiresAt.Some? && key.expiresAt.value <= now then Err(Expired)
            else Ok(key)
  {
    hide Parse, Print, ValidPrefix, ValidSecret;
    ParseExact(presented, key.environment, key.prefix, key.hash.secret);
  }

  /** Everybody else is told the one same thing. */
  lemma OthersAreNotTold(keys: Keys, accept: set<Environment>, presented: string, now: Instant)
    requires Valid(keys) && forall key :: !Presents(keys, accept, presented, key)
    ensures Authenticated(keys, accept, presented, now) == Err(InvalidCredentials)
  {
    hide Parse, Print, ValidPrefix, ValidSecret;
    if Parse(presented).Some? {
      var (environment, prefix, secret) := Parse(presented).value;
      ParseExact(presented, environment, prefix, secret);
      if prefix in keys {
        assert !Presents(keys, accept, presented, keys[prefix]);
      }
    }
  }

  /** Whether a key is revoked or expired is said exactly to whoever presents it; all else that is refused is invalid. */
  lemma RefusedExactly(keys: Keys, accept: set<Environment>, presented: string, now: Instant)
    requires Valid(keys)
    ensures var r := Authenticated(keys, accept, presented, now);
            && (r == Err(Revoked) <==> exists key :: Presents(keys, accept, presented, key) && key.revokedAt.Some?)
            && (r == Err(Expired) <==>
                  exists key :: Presents(keys, accept, presented, key) && key.revokedAt.None?
                                && key.expiresAt.Some? && key.expiresAt.value <= now)
            && (r == Err(InvalidCredentials) <==> forall key :: !Presents(keys, accept, presented, key))
  {
    hide Presents, Authenticated, Valid;
    if key :| Presents(keys, accept, presented, key) {
      HolderIsTold(keys, accept, presented, now, key);
      forall other | Presents(keys, accept, presented, other) ensures other == key {
        PresentsOne(keys, accept, presented, other, key);
      }
    } else {
      OthersAreNotTold(keys, accept, presented, now);
    }
  }

  /** So stores that differ in records nobody presents, such as which keys ever existed, answer alike. */
  lemma OtherRecordsDoNotShow(a: Keys, b: Keys, accept: set<Environment>, presented: string, now: Instant)
    requires Valid(a) && Valid(b)
    requires forall key :: Presents(a, accept, presented, key) <==> Presents(b, accept, presented, key)
    ensures Authenticated(a, accept, presented, now) == Authenticated(b, accept, presented, now)
  {
    hide Presents, Authenticated, Valid;
    if key :| Presents(a, accept, presented, key) {
      HolderIsTold(a, accept, presented, now, key);
      HolderIsTold(b, accept, presented, now, key);
    } else {
      OthersAreNotTold(a, accept, presented, now);
      OthersAreNotTold(b, accept, presented, now);
    }
  }

  // ----- Single operations

  /** An insert files the record under its own prefix, where nothing was, and changes nothing else. */
  lemma InsertIs(keys: Keys, key: ApiKey)
    requires Valid(keys) && !HasId(keys, key.id)
    ensures After(keys, Insert(key)) == if key.prefix in keys then keys else keys[key.prefix := key]
  {
  }

  /** A revocation dates the tombstone of the one record with that id, if it has none; a use dates that, at any time. */
  lemma UpdateIs(keys: Keys, prefix: string, at: Instant)
    requires Valid(keys) && prefix in keys
    ensures After(keys, Touch(keys[prefix].id, at)) == keys[prefix := keys[prefix].(lastUsedAt := Some(at))]
    ensures After(keys, Revoke(keys[prefix].id, at)) ==
            if keys[prefix].revokedAt.Some? then keys else keys[prefix := keys[prefix].(revokedAt := Some(at))]
    ensures Revocable(keys, keys[prefix].id) <==> keys[prefix].revokedAt.None?
  {
    assert WhereId(keys, keys[prefix].id) == Some(prefix);
  }

  /** An id nobody has is neither revoked nor touched. */
  lemma UnknownIdIsLeftAlone(keys: Keys, id: nat, at: Instant)
    requires Valid(keys) && forall prefix | prefix in keys :: keys[prefix].id != id
    ensures After(keys, Touch(id, at)) == keys && After(keys, Revoke(id, at)) == keys && !Revocable(keys, id)
  {
  }

  // ----- Every interleaving

  /** A sequence of atomic operations, from whoever, on a store that starts empty. */
  datatype Run = Run(ops: seq<Op>) {
    ghost function KeysAt(i: nat): (keys: Keys)
      requires i <= |ops|
      ensures Valid(keys)
    {
      if i == 0 then map[]
      else
        StepKeepsValid(KeysAt(i - 1), ops[i - 1]);
        After(KeysAt(i - 1), ops[i - 1])
    }
  }

  lemma StepKeepsValid(keys: Keys, op: Op)
    requires Valid(keys)
    ensures Valid(After(keys, op))
  {
    var next := After(keys, op);
    if op.Insert? && next != keys {
      assert forall prefix | prefix in keys :: keys[prefix].id != op.key.id;
    }
    assert forall a, b | a in next && b in next && next[a].id == next[b].id :: a == b;
  }

  /** `later` is `earlier` with only its timestamps advanced: a tombstone, once set, stays as it is. */
  ghost predicate SameKey(earlier: ApiKey, later: ApiKey) {
    && later == earlier.(lastUsedAt := later.lastUsedAt, revokedAt := later.revokedAt)
    && (earlier.revokedAt.Some? ==> later.revokedAt == earlier.revokedAt)
  }

  lemma StepKeepsKeys(keys: Keys, op: Op, prefix: string)
    requires Valid(keys) && prefix in keys
    ensures prefix in After(keys, op) && SameKey(keys[prefix], After(keys, op)[prefix])
  {
  }

  /** Records never vanish and never change but in their timestamps. */
  lemma {:induction false} RecordsStay(run: Run, i: nat, j: nat, prefix: string)
    requires i <= j <= |run.ops| && prefix in run.KeysAt(i)
    ensures prefix in run.KeysAt(j) && SameKey(run.KeysAt(i)[prefix], run.KeysAt(j)[prefix])
    decreases j
  {
    hide After, Valid;
    if i < j {
      RecordsStay(run, i, j - 1, prefix);
      StepKeepsKeys(run.KeysAt(j - 1), run.ops[j - 1], prefix);
    }
  }

  /** After a successful revocation every lookup of the key finds that tombstone, so no authentication returns the key. */
  lemma RevokedForGood(run: Run, i: nat, j: nat, id: nat, at: Instant)
    requires i < j <= |run.ops| && run.ops[i] == Revoke(id, at) && Revocable(run.KeysAt(i), id)
    ensures forall prefix | prefix in run.KeysAt(j) && run.KeysAt(j)[prefix].id == id ::
              run.KeysAt(j)[prefix].revokedAt == Some(at)
    ensures forall accept, presented, now ::
              var r := Authenticated(run.KeysAt(j), accept, presented, now);
              !(r.Ok? && r.value.id == id)
  {
    hide Parse, Valid, WhereId;
    TombstoneStays(run, i, j, id, at);
  }

  lemma TombstoneStays(run: Run, i: nat, j: nat, id: nat, at: Instant)
    requires i < j <= |run.ops| && run.ops[i] == Revoke(id, at) && Revocable(run.KeysAt(i), id)
    ensures forall prefix | prefix in run.KeysAt(j) && run.KeysAt(j)[prefix].id == id ::
              run.KeysAt(j)[prefix].revokedAt == Some(at)
  {
    var prefix := WhereId(run.KeysAt(i), id).value;
    assert prefix in run.KeysAt(i + 1) && run.KeysAt(i + 1)[prefix].revokedAt == Some(at);
    RecordsStay(run, i + 1, j, prefix);
    var keys := run.KeysAt(j);
    assert keys[prefix].id == id;
    assert forall other | other in keys && keys[other].id == id :: other == prefix;
  }

  /** The prefix is unlike any key's on record and the id is new, so the insert takes effect. */
  ghost predicate Inserts(run: Run, i: nat, key: ApiKey) {
    && i < |run.ops| && run.ops[i] == Insert(key)
    && key.prefix !in run.KeysAt(i) && !HasId(run.KeysAt(i), key.id)
  }

  /** A generated key that was stored authenticates, with its own record, until it is revoked or expires. */
  lemma LiveKeyAuthenticates(
      run: Run, i: nat, j: nat, key: ApiKey, prefixBytes: seq<byte>, secretBytes: seq<byte>,
      accept: set<Environment>, now: Instant)
    requires Inserts(run, i, key) && i < j <= |run.ops| && key.revokedAt.None?
    requires |prefixBytes| == PREFIX_LENGTH / 2 && |secretBytes| == SECRET_BYTES
    requires key.prefix == Hex(prefixBytes) && key.hash == Sha256(B64.Encode(secretBytes))
    requires forall k | i < k < j && run.ops[k].Revoke? :: run.ops[k].revoked != key.id
    requires key.environment in accept && (key.expiresAt.Some? ==> now < key.expiresAt.value)
    ensures var r := Authenticated(run.KeysAt(j), accept, Generated(key.environment, prefixBytes, secretBytes), now);
            r.Ok? && r.value.id == key.id && r.value.revokedAt.None?
  {
    hide Parse, Generated, B64.Encode, Hex;
    GeneratedParses(key.environment, prefixBytes, secretBytes);
    assert key.prefix in run.KeysAt(i + 1) && run.KeysAt(i + 1)[key.prefix] == key;
    RecordsStay(run, i + 1, j, key.prefix);
    Unrevoked(run, i + 1, j, key);
  }

  lemma {:induction false} Unrevoked(run: Run, i: nat, j: nat, key: ApiKey)
    requires i <= j <= |run.ops| && key.prefix in run.KeysAt(i) && run.KeysAt(i)[key.prefix] == key
    requires key.revokedAt.None?
    requires forall k | i <= k < j && run.ops[k].Revoke? :: run.ops[k].revoked != key.id
    ensures key.prefix in run.KeysAt(j) && run.KeysAt(j)[key.prefix].revokedAt.None?
    decreases j
  {
    hide Valid;
    if i < j {
      Unrevoked(run, i, j - 1, key);
      RecordsStay(run, i, j - 1, key.prefix);
    }
  }
}
