/**
 Second-factor challenges: minted, stored under their digest with an expiry, and
 claimed by a read followed by a delete. The store may drop an entry at any time,
 and any number of redemptions may interleave between their two operations.
 */
module ChallengeStore {
  import opened Wrappers

  /** Nanoseconds since the epoch. */
  type Instant = int

  /** The digest a token is stored under; distinct tokens are taken to have distinct digests. */
  datatype Digest = Sha256(token: string)

  /** A stored challenge: whose it is, and until when. */
  datatype Pending = Pending(subject: string, expiresAt: Instant)

  type Entries = map<Digest, Pending>

  /** The longest delta and the latest instant the clock library can express. */
  datatype Clock = Clock(maxDelta: nat, latest: Instant)

  datatype Failure = ZeroTtl | TtlTooLong | Unavailable

  /** When a credential minted at `now` stops working. */
  function Expiry(ttl: nat, now: Instant, clock: Clock): (r: Result<Instant, Failure>)
    ensures r.Ok? <==> 0 < ttl <= clock.maxDelta && now + ttl <= clock.latest
    ensures r.Ok? ==> r.value - ttl == now
    ensures r.Err? ==> r.error == if ttl == 0 then ZeroTtl else TtlTooLong
  {
    if ttl == 0 then Err(ZeroTtl)
    else if ttl > clock.maxDelta || now + ttl > clock.latest then Err(TtlTooLong)
    else Ok(now + ttl)
  }

  /** A redemption that nothing interrupts: the entries it leaves and the subject it answers. */
  function Redeemed(entries: Entries, token: string, now: Instant): (Entries, Option<string>) {
    var key := Sha256(token);
    if key !in entries then (entries, None)
    else (entries - {key}, if now >= entries[key].expiresAt then None else Some(entries[key].subject))
  }

  /** What becomes of a write: it is made and answered, it fails, or it is made and answered with a failure. */
  datatype Fate = Done | Lost | Unreported

  /** What becomes of the store's operations in one call. */
  datatype Outage = Outage(write: Fate, read: bool, delete: Fate)

  class Challenges {
    var entries: Entries
    const ttl: nat
    const clock: Clock

    constructor (ttl: nat, clock: Clock)
      ensures entries == map[] && this.ttl == ttl && this.clock == clock
    {
      entries := map[];
      this.ttl := ttl;
      this.clock := clock;
    }

    /** Mints `token` for `subject`; it is handed out only once it is written down. */
    method IssueAt(subject: string, token: string, now: Instant, outage: Outage)
      returns (r: Result<Pending, Failure>)
      modifies this
      ensures match Expiry(ttl, now, clock) {
                case Err(failure) => r == Err(failure) && entries == old(entries)
                case Ok(expiresAt) =>
                  && r == (if outage.write.Done? then Ok(Pending(subject, expiresAt)) else Err(Unavailable))
                  && entries == if outage.write.Lost? then old(entries)
                                else old(entries)[Sha256(token) := Pending(subject, expiresAt)]
              }
    {
      var expiry := Expiry(ttl, now, clock);
      if expiry.Err? {
        return Err(expiry.error);
      }
      var stored := Pending(subject, expiry.value);
      if !outage.write.Lost? {
        entries := entries[Sha256(token) := stored];
      }
      return if outage.write.Done? then Ok(stored) else Err(Unavailable);
    }

    method Get(key: Digest) returns (stored: Option<Pending>)
      ensures stored == if key in entries then Some(entries[key]) else None
    {
      stored := if key in entries then Some(entries[key]) else None;
    }

    /** Answers whether the key was there: the claim is the delete. */
    method Delete(key: Digest) returns (claimed: bool)
      modifies this
      ensures claimed == (key in old(entries)) && entries == old(entries) - {key}
    {
      claimed := key in entries;
      entries := entries - {key};
    }

    /** `redeem_at`, run without interruption. */
    method RedeemAt(token: string, now: Instant, outage: Outage) returns (r: Result<Option<string>, Failure>)
      modifies this
      ensures var (after, subject) := Redeemed(old(entries), token, now);
              if outage.read || (outage.delete.Lost? && Sha256(token) in old(entries))
              then r == Err(Unavailable) && entries == old(entries)
              else
                && entries == after
                && r == if outage.delete.Unreported? && Sha256(token) in old(entries) then Err(Unavailable) else Ok(subject)
    {
      var key := Sha256(token);
      if outage.read {
        return Err(Unavailable);
      }
      var stored := Get(key);
      if stored.None? {
        return Ok(None);
      }
      if outage.delete.Lost? {
        return Err(Unavailable);
      }
      var claimed := Delete(key);
      if outage.delete.Unreported? {
        return Err(Unavailable);
      }
      if !claimed || now >= stored.value.expiresAt {
        return Ok(None);
      }
      return Ok(Some(stored.value.subject));
    }
  }

  // ----- Interleaved redemptions

  datatype Answer = Success(subject: string) | NotLive | StoreDown

  /** How far one redemption has got. `claimed` says whether its delete removed the entry. */
  datatype Attempt =
    | Started(token: string, now: Instant)
    | HasRead(token: string, now: Instant, stored: Pending)
    | Finished(token: string, now: Instant, answer: Answer, claimed: bool)

  /** The store, everything ever minted, and every redemption begun. */
  datatype State = State(entries: Entries, minted: Entries, attempts: map<nat, Attempt>)

  const INITIAL: State := State(map[], map[], map[])

  /** One atomic step of anyone. A step that does not apply leaves the state alone. */
  datatype Step =
    | Mint(token: string, subject: string, expiresAt: Instant)
    | Expire(key: Digest)
    | Begin(id: nat, presented: string, at: Instant)
    | Read(reader: nat)
    | ReadFails(unread: nat)
    | Claim(claimer: nat)
    | ClaimFails(unclaimed: nat, applied: bool)

  function Next(s: State, step: Step): State {
    match step
    case Mint(token, subject, expiresAt) =>
      var key := Sha256(token);
      // Tokens are fresh: one that was minted before is not drawn again.
      if key in s.minted then s
      else
        var pending := Pending(subject, expiresAt);
        s.(entries := s.entries[key := pending], minted := s.minted[key := pending])
    case Expire(key) => s.(entries := s.entries - {key})
    case Begin(id, token, now) =>
      if id in s.attempts then s else s.(attempts := s.attempts[id := Started(token, now)])
    case Read(id) =>
      if id in s.attempts && s.attempts[id].Started? then
        var a := s.attempts[id];
        var key := Sha256(a.token);
        var after := if key in s.entries then HasRead(a.token, a.now, s.entries[key])
                     else Finished(a.token, a.now, NotLive, false);
        s.(attempts := s.attempts[id := after])
      else s
    case ReadFails(id) =>
      if id in s.attempts && s.attempts[id].Started? then
        s.(attempts := s.attempts[id := Finished(s.attempts[id].token, s.attempts[id].now, StoreDown, false)])
      else s
    case Claim(id) =>
      if id in s.attempts && s.attempts[id].HasRead? then
        var a := s.attempts[id];
        var claimed := Sha256(a.token) in s.entries;
        var answer := if !claimed || a.now >= a.stored.expiresAt then NotLive else Success(a.stored.subject);
        s.(entries := s.entries - {Sha256(a.token)},
           attempts := s.attempts[id := Finished(a.token, a.now, answer, claimed)])
      else s
    case ClaimFails(id, applied) =>
      if id in s.attempts && s.attempts[id].HasRead? then
        var a := s.attempts[id];
        var claimed := applied && Sha256(a.token) in s.entries;
        s.(entries := if applied then s.entries - {Sha256(a.token)} else s.entries,
           attempts := s.attempts[id := Finished(a.token, a.now, StoreDown, claimed)])
      else s
  }

  function Run(s: State, steps: seq<Step>): State
    decreases |steps|
  {
    if steps == [] then s else Run(Next(s, steps[0]), steps[1..])
  }

  /** The attempt removed its challenge from the store. */
  ghost predicate ClaimedBy(s: State, id: nat, key: Digest) {
    id in s.attempts && s.attempts[id].Finished? && s.attempts[id].claimed && Sha256(s.attempts[id].token) == key
  }

  ghost predicate EntriesAsMinted(s: State) {
    forall key | key in s.entries :: key in s.minted && s.entries[key] == s.minted[key]
  }

  ghost predicate ReadsAsMinted(s: State) {
    forall id | id in s.attempts && s.attempts[id].HasRead? ::
      var a := s.attempts[id]; Sha256(a.token) in s.minted && a.stored == s.minted[Sha256(a.token)]
  }

  ghost predicate ClaimedAreGone(s: State) {
    forall id, key | ClaimedBy(s, id, key) :: key in s.minted && key !in s.entries
  }

  ghost predicate ClaimedOnce(s: State) {
    forall a, b, key | ClaimedBy(s, a, key) && ClaimedBy(s, b, key) :: a == b
  }

  /** A success was claimed, for the minted subject, before the minted expiry. */
  ghost predicate Sound(s: State, a: Attempt) {
    a.Finished? && a.answer.Success? ==>
      var key := Sha256(a.token);
      a.claimed && key in s.minted && a.answer.subject == s.minted[key].subject && a.now < s.minted[key].expiresAt
  }

  ghost predicate Invariant(s: State) {
    && EntriesAsMinted(s)
    && ReadsAsMinted(s)
    && ClaimedAreGone(s)
    && ClaimedOnce(s)
    && forall id | id in s.attempts :: Sound(s, s.attempts[id])
  }

  /** A step adds at most one claim, of a key that was there and no longer is. */
  lemma NewClaim(s: State, step: Step, id: nat, key: Digest)
    requires EntriesAsMinted(s) && ClaimedBy(Next(s, step), id, key) && !ClaimedBy(s, id, key)
    ensures key in s.entries && key in s.minted && key !in Next(s, step).entries
    ensures forall other | other != id :: ClaimedBy(Next(s, step), other, key) ==> ClaimedBy(s, other, key)
  {
  }

  lemma StepKeepsMinted(s: State, step: Step)
    requires EntriesAsMinted(s) && ReadsAsMinted(s)
    ensures EntriesAsMinted(Next(s, step)) && ReadsAsMinted(Next(s, step))
  {
  }

  lemma StepKeepsGone(s: State, step: Step, id: nat, key: Digest)
    requires ClaimedBy(s, id, key) && key in s.minted && key !in s.entries
    ensures ClaimedBy(Next(s, step), id, key)
    ensures key in Next(s, step).minted && key !in Next(s, step).entries
  {
  }

  lemma StepKeepsSound(s: State, step: Step)
    requires EntriesAsMinted(s) && ReadsAsMinted(s) && forall id | id in s.attempts :: Sound(s, s.attempts[id])
    ensures forall id | id in Next(s, step).attempts :: Sound(Next(s, step), Next(s, step).attempts[id])
  {
  }

  lemma StepKeepsInvariant(s: State, step: Step)
    requires Invariant(s)
    ensures Invariant(Next(s, step))
  {
    hide Next, ClaimedBy, Sound;
    var t := Next(s, step);
    StepKeepsMinted(s, step);
    StepKeepsSound(s, step);
    forall id, key | ClaimedBy(t, id, key) ensures key in t.minted && key !in t.entries {
      if ClaimedBy(s, id, key) {
        StepKeepsGone(s, step, id, key);
      } else {
        NewClaim(s, step, id, key);
        MintedStays(s, step, key);
      }
    }
    forall a, b, key | ClaimedBy(t, a, key) && ClaimedBy(t, b, key) ensures a == b {
      if !ClaimedBy(s, a, key) {
        NewClaim(s, step, a, key);
      } else if !ClaimedBy(s, b, key) {
        NewClaim(s, step, b, key);
      }
    }
  }

  lemma MintedStays(s: State, step: Step, key: Digest)
    requires key in s.minted
    ensures key in Next(s, step).minted
  {
  }

  lemma {:induction false} RunKeepsInvariant(s: State, steps: seq<Step>)
    requires Invariant(s)
    ensures Invariant(Run(s, steps))
    decreases |steps|
  {
    hide Invariant, Next;
    if steps != [] {
      StepKeepsInvariant(s, steps[0]);
      RunKeepsInvariant(Next(s, steps[0]), steps[1..]);
    }
  }

  /** A finished redemption's answer, and what was minted, never change. */
  lemma {:induction false} HistoryStays(s: State, steps: seq<Step>)
    ensures forall id | id in s.attempts && s.attempts[id].Finished? ::
              id in Run(s, steps).attempts && Run(s, steps).attempts[id] == s.attempts[id]
    ensures forall key | key in s.minted :: key in Run(s, steps).minted && Run(s, steps).minted[key] == s.minted[key]
    decreases |steps|
  {
    if steps != [] {
      HistoryStays(Next(s, steps[0]), steps[1..]);
    }
  }

  lemma {:induction false} RunConcat(s: State, a: seq<Step>, b: seq<Step>)
    ensures Run(s, a + b) == Run(Run(s, a), b)
    decreases |a|
  {
    if a == [] {
      assert a + b == b;
    } else {
      assert (a + b)[1..] == a[1..] + b;
      RunConcat(Next(s, a[0]), a[1..], b);
    }
  }

  /**
   In every interleaving: a challenge is redeemed by at most one attempt, only for the
   subject it was minted for, and only strictly before its expiry.
   */
  lemma RedeemedAtMostOnce(steps: seq<Step>)
    ensures var s := Run(INITIAL, steps);
            forall id | id in s.attempts && s.attempts[id].Finished? && s.attempts[id].answer.Success? ::
              var a := s.attempts[id];
              && Sha256(a.token) in s.minted
              && a.answer.subject == s.minted[Sha256(a.token)].subject
              && a.now < s.minted[Sha256(a.token)].expiresAt
              && forall other | other in s.attempts && other != id && s.attempts[other].Finished?
                             && s.attempts[other].token == a.token :: !s.attempts[other].answer.Success?
  {
    RunKeepsInvariant(INITIAL, steps);
    var s := Run(INITIAL, steps);
    forall a, b | a in s.attempts && b in s.attempts && s.attempts[a].Finished? && s.attempts[b].Finished?
                  && s.attempts[a].answer.Success? && s.attempts[b].answer.Success?
                  && s.attempts[a].token == s.attempts[b].token
      ensures a == b
    {
      assert ClaimedBy(s, a, Sha256(s.attempts[a].token));
      assert ClaimedBy(s, b, Sha256(s.attempts[b].token));
    }
  }

  /** Whoever claims a challenge consumes it, refused or not: nobody redeems it in any continuation. */
  lemma ClaimConsumes(steps: seq<Step>, more: seq<Step>, id: nat, key: Digest)
    requires ClaimedBy(Run(INITIAL, steps), id, key)
    ensures var s := Run(INITIAL, steps + more);
            && key !in s.entries
            && forall other | other != id && other in s.attempts && s.attempts[other].Finished?
                           && Sha256(s.attempts[other].token) == key :: !s.attempts[other].answer.Success?
  {
    RunConcat(INITIAL, steps, more);
    HistoryStays(Run(INITIAL, steps), more);
    RunKeepsInvariant(INITIAL, steps + more);
    var s := Run(INITIAL, steps + more);
    assert ClaimedBy(s, id, key);
    forall other | other in s.attempts && s.attempts[other].Finished?
                   && Sha256(s.attempts[other].token) == key && s.attempts[other].answer.Success?
      ensures other == id
    {
      assert ClaimedBy(s, other, key);
    }
  }

  /** A redemption whose steps nothing comes between answers as the uninterrupted one does. */
  lemma UninterruptedIsRedeemed(s: State, id: nat, token: string, now: Instant)
    requires Invariant(s) && id !in s.attempts
    ensures var t := Run(s, [Begin(id, token, now), Read(id), Claim(id)]);
            var (after, subject) := Redeemed(s.entries, token, now);
            && t.entries == after
            && id in t.attempts && t.attempts[id].Finished?
            && t.attempts[id].answer == if subject.Some? then Success(subject.value) else NotLive
  {
    var steps := [Begin(id, token, now), Read(id), Claim(id)];
    var s1 := Next(s, steps[0]);
    var s2 := Next(s1, steps[1]);
    var s3 := Next(s2, steps[2]);
    assert steps[1..] == [Read(id), Claim(id)] && steps[1..][1..] == [Claim(id)] && steps[1..][1..][1..] == [];
    assert Run(s, steps) == Run(s1, steps[1..]) == Run(s2, steps[1..][1..]) == Run(s3, []);
  }
}
