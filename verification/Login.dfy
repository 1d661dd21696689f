/**
 The two-step login of the database backend: a verified password earns an enrolled
 account a challenge, and the challenge with a fresh time-based code signs it in.
 */
module Login {
  import opened Wrappers
  import opened Text
  import opened ChallengeStore

  // ----- Accounts and requests

  /** The stored password hash: unreadable, or a hash of `password` whose parameters have aged or not. */
  datatype Phc = Malformed | Hash(password: string, aged: bool)

  /** An account row. `lastPeriod` is the last accepted code's period. */
  datatype Row = Row(
    identity: string, phc: Phc, secret: Option<string>, lastPeriod: Option<int>, active: bool, usable: bool)

  /** Rows by primary key; a string key is its own subject, written verbatim. */
  type Rows = map<string, Row>

  const I64_MAX: nat := 0x7FFF_FFFF_FFFF_FFFF

  /** The two spellings a presented identity is looked up by: normalised, and as typed. */
  datatype Identity = Identity(normalised: string, typed: string)

  datatype Credentials = Credentials(who: Identity, password: string, totp: Option<string>, challenge: Option<string>)

  /** Which of a call's steps fail, and what becomes of its writes. */
  datatype Faults = Faults(
    read: bool, verify: bool, load: bool, store: Outage, badSecret: bool, check: bool, writePeriod: Fate, rehash: Fate)

  /**
   One call: the credentials, the clock, the token the generator would draw, the
   period whose code was presented (if any matches), and what fails.
   */
  datatype Call = Call(
    credentials: Credentials, now: Instant, drawn: string, matching: Option<nat>, faults: Faults)

  datatype Outcome =
    | SignedIn(id: string)
    | Refused
    | SecondFactorRequired(challenge: string)
    | Failed

  datatype Config = Config(activeColumn: bool, secondFactor: bool, rehashOnLogin: bool, ttl: nat, clock: Clock)

  datatype Store = Store(rows: Rows, entries: Entries)

  predicate Matches(row: Row, who: Identity) {
    row.identity == who.normalised || row.identity == who.typed
  }

  function Matching(rows: Rows, who: Identity): set<string> {
    set id | id in rows && Matches(rows[id], who)
  }

  /** The assumption on the identity column: an identity matches at most one row. */
  predicate Unambiguous(rows: Rows, who: Identity) {
    forall a, b | a in Matching(rows, who) && b in Matching(rows, who) :: a == b
  }

  function RowOf(rows: Rows, who: Identity): (r: Option<string>)
    requires Unambiguous(rows, who)
    ensures r.Some? ==> r.value in rows && Matches(rows[r.value], who)
    ensures r.None? ==> Matching(rows, who) == {}
  {
    var matching := Matching(rows, who);
    if matching == {} then None else var id :| id in matching; Some(id)
  }

  predicate Enrolled(row: Row) {
    row.secret.Some? && Trim(row.secret.value) != ""
  }

  /** The period a code is checked above: a stored negative one reads as none. */
  function Resumed(lastPeriod: Option<int>): Option<nat> {
    if lastPeriod.Some? && lastPeriod.value >= 0 then Some(lastPeriod.value) else None
  }

  /** Only a period above the last accepted one is accepted. */
  predicate Accepts(last: Option<nat>, matching: Option<nat>) {
    matching.Some? && (last.None? || last.value < matching.value)
  }

  function StoredPeriod(period: nat): Option<int> {
    if period <= I64_MAX then Some(period) else None
  }

  // ----- What a call does

  /** `second_step`: claim the challenge, check the code, write the period. `None` is an error. */
  function SecondStep(s: Store, id: string, call: Call): (Store, Option<bool>)
    requires id in s.rows
  {
    var row := s.rows[id];
    if call.credentials.challenge.None? || call.credentials.totp.None? then (s, Some(false))
    else
      var token := call.credentials.challenge.value;
      if call.faults.store.read then (s, None)
      else if Sha256(token) !in s.entries then (s, Some(false))
      else if call.faults.store.delete.Lost? then (s, None)
      else
        var (after, claimed) := Redeemed(s.entries, token, call.now);
        var t := s.(entries := after);
        if call.faults.store.delete.Unreported? then (t, None)
        else if claimed.None? || claimed.value != id then (t, Some(false))
        else if call.faults.badSecret || call.faults.check then (t, None)
        else if !Accepts(Resumed(row.lastPeriod), call.matching) then (t, Some(false))
        else if call.faults.writePeriod.Lost? then (t, None)
        else (t.(rows := t.rows[id := row.(lastPeriod := StoredPeriod(call.matching.value))]),
              if call.faults.writePeriod.Done? then Some(true) else None)
  }

  function Upgraded(config: Config, s: Store, id: string, call: Call): Store
    requires id in s.rows
  {
    var row := s.rows[id];
    if config.rehashOnLogin && row.phc.Hash? && row.phc.aged && !call.faults.rehash.Lost?
    then s.(rows := s.rows[id := row.(phc := Hash(call.credentials.password, false))])
    else s
  }

  /** The account whose password the call gets right and which may sign in. */
  function Verified(config: Config, rows: Rows, call: Call): (r: Option<string>)
    requires Unambiguous(rows, call.credentials.who)
    ensures r.Some? ==> r.value in rows
  {
    match RowOf(rows, call.credentials.who)
    case None => None
    case Some(id) =>
      var row := rows[id];
      if && row.phc.Hash? && row.phc.password == call.credentials.password
         && (config.activeColumn ==> row.active) && row.usable
      then Some(id)
      else None
  }

  /** `authenticate`, as a whole: the store it leaves and its outcome. */
  function Authenticated(config: Config, s: Store, call: Call): (Store, Outcome)
    requires Unambiguous(s.rows, call.credentials.who)
  {
    var found := RowOf(s.rows, call.credentials.who);
    if call.faults.read then (s, Failed)
    else if found.None? then (s, if call.faults.verify then Failed else Refused)
    else if s.rows[found.value].phc.Malformed? || call.faults.verify then (s, Failed)
    else if s.rows[found.value].phc.password != call.credentials.password then (s, Refused)
    else if call.faults.load then (s, Failed)
    else
      match Verified(config, s.rows, call)
      case None => (s, Refused)
      case Some(id) =>
        if !config.secondFactor || !Enrolled(s.rows[id]) then
          (Upgraded(config, s, id, call), SignedIn(id))
        else if call.credentials.totp.None? then
          match Expiry(config.ttl, call.now, config.clock) {
            case Err(_) => (s, Failed)
            case Ok(expiresAt) =>
              if call.faults.store.write.Lost? then (s, Failed)
              else (s.(entries := s.entries[Sha256(call.drawn) := Pending(id, expiresAt)]),
                    if call.faults.store.write.Done? then SecondFactorRequired(call.drawn) else Failed)
          }
        else
          var (t, passed) := SecondStep(s, id, call);
          match passed
          case None => (t, Failed)
          case Some(false) => (t, Refused)
          case Some(true) => (Upgraded(config, t, id, call), SignedIn(id))
  }

  // ----- What a call has to bring

  /** The password of `id`, and no failure on the way to its second factor. */
  predicate Identifies(config: Config, s: Store, call: Call, id: string) {
    && Unambiguous(s.rows, call.credentials.who) && Verified(config, s.rows, call) == Some(id)
    && !call.faults.read && !call.faults.verify && !call.faults.load
  }

  /** The challenge is live and was minted for `id`, and the store answers for it. */
  predicate Redeems(s: Store, call: Call, id: string) {
    && call.credentials.challenge.Some? && !call.faults.store.read && call.faults.store.delete.Done?
    && var key := Sha256(call.credentials.challenge.value);
    && key in s.entries && s.entries[key].subject == id && call.now < s.entries[key].expiresAt
  }

  /** All that the second request of a login asks for, short of its period write. */
  predicate Earns(config: Config, s: Store, call: Call, id: string) {
    && Identifies(config, s, call, id)
    && config.secondFactor && id in s.rows && Enrolled(s.rows[id])
    && call.credentials.totp.Some? && Redeems(s, call, id)
    && !call.faults.badSecret && !call.faults.check
    && Accepts(Resumed(s.rows[id].lastPeriod), call.matching)
  }

  // ----- The backend

  class DatabaseBackend {
    var rows: Rows
    const config: Config
    const pending: Challenges

    constructor (rows: Rows, config: Config)
      ensures this.rows == rows && this.config == config
      ensures fresh(pending) && pending.entries == map[]
      ensures pending.ttl == config.ttl && pending.clock == config.clock
    {
      this.rows := rows;
      this.config := config;
      pending := new Challenges(config.ttl, config.clock);
    }

    ghost function Contents(): Store
      reads this, pending
    {
      Store(rows, pending.entries)
    }

    /** The filtered update of every row the identity matches. */
    method WriteMatching(who: Identity, id: string, row: Row)
      requires id in rows && Matching(rows, who) == {id}
      modifies `rows
      ensures rows == old(rows)[id := row]
    {
      rows := map other | other in rows :: if Matches(rows[other], who) then row else rows[other];
      assert forall other | other in old(rows) :: Matches(old(rows)[other], who) <==> other in Matching(old(rows), who);
    }

    /** The second request of a login: the claim comes before the code, the write before the success. */
    method SecondStepOf(id: string, secretOf: Row, call: Call) returns (r: Result<bool, ()>)
      requires id in rows && rows[id] == secretOf && Matching(rows, call.credentials.who) == {id}
      modifies `rows, pending
      ensures var (t, passed) := SecondStep(old(Contents()), id, call);
              Contents() == t && r == if passed.None? then Err(()) else Ok(passed.value)
    {
      if call.credentials.challenge.None? || call.credentials.totp.None? {
        return Ok(false);
      }
      var claimed := pending.RedeemAt(call.credentials.challenge.value, call.now, call.faults.store);
      if claimed.Err? {
        return Err(());
      }
      if claimed.value.None? {
        return Ok(false);
      }
      if claimed.value.value != id {
        return Ok(false);
      }
      if call.faults.badSecret {
        return Err(());
      }
      var last := Resumed(secretOf.lastPeriod);
      if call.faults.check {
        return Err(());
      }
      if !Accepts(last, call.matching) {
        return Ok(false);
      }
      if !call.faults.writePeriod.Lost? {
        WriteMatching(call.credentials.who, id, secretOf.(lastPeriod := StoredPeriod(call.matching.value)));
      }
      return if call.faults.writePeriod.Done? then Ok(true) else Err(());
    }

    /** A failed upgrade does not fail the login. */
    method UpgradeHash(id: string, call: Call)
      requires id in rows && Matching(rows, call.credentials.who) == {id}
      modifies `rows
      ensures rows == if call.faults.rehash.Lost? then old(rows)
                      else old(rows)[id := old(rows)[id].(phc := Hash(call.credentials.password, false))]
    {
      if !call.faults.rehash.Lost? {
        WriteMatching(call.credentials.who, id, rows[id].(phc := Hash(call.credentials.password, false)));
      }
    }

    method Authenticate(call: Call) returns (outcome: Outcome)
      requires Unambiguous(rows, call.credentials.who)
      requires pending.ttl == config.ttl && pending.clock == config.clock
      modifies `rows, pending
      ensures (Contents(), outcome) == Authenticated(config, old(Contents()), call)
    {
      if call.faults.read {
        return Failed;
      }
      var found := RowOf(rows, call.credentials.who);
      if found.None? {
        return if call.faults.verify then Failed else Refused;
      }
      var id := found.value;
      assert Matching(rows, call.credentials.who) == {id};
      var stored := rows[id];
      if stored.phc.Malformed? || call.faults.verify {
        return Failed;
      }
      if stored.phc.password != call.credentials.password {
        return Refused;
      }
      if call.faults.load {
        return Failed;
      }
      if config.activeColumn && !stored.active {
        return Refused;
      }
      if !stored.usable {
        return Refused;
      }
      if config.secondFactor && Enrolled(stored) {
        if call.credentials.totp.None? {
          var challenge := pending.IssueAt(id, call.drawn, call.now, call.faults.store);
          return if challenge.Err? then Failed else SecondFactorRequired(call.drawn);
        }
        var passed := SecondStepOf(id, stored, call);
        if passed.Err? {
          return Failed;
        }
        if !passed.value {
          return Refused;
        }
      }
      if config.rehashOnLogin && stored.phc.aged {
        UpgradeHash(id, call);
      }
      return SignedIn(id);
    }
  }
}
