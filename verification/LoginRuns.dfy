/** What holds over every run of logins, store expiries and account edits. */
module LoginRuns {
  import opened Wrappers
  import opened ChallengeStore
  import opened Login
  import Text
  import TextFacts

  /** Something that happens: a request, the store dropping an entry, or an account being written elsewhere. */
  datatype Event = Request(call: Call) | Drop(key: Digest) | Edit(id: string, row: Row)

  /** The runs of one backend from rows and an empty challenge store. */
  datatype Run = Run(config: Config, rows: Rows, events: seq<Event>) {
    function StoreAt(i: nat): Store
      requires i <= |events|
    {
      if i == 0 then Store(rows, map[]) else After(StoreAt(i - 1), events[i - 1])
    }

    function After(s: Store, event: Event): Store {
      match event
      case Request(call) => Answer(s, call).0
      case Drop(key) => s.(entries := s.entries - {key})
      case Edit(id, row) => s.(rows := s.rows[id := row])
    }

    /** An identity that matches several rows is outside the model: such a call does nothing. */
    function Answer(s: Store, call: Call): (Store, Outcome) {
      if Unambiguous(s.rows, call.credentials.who) then Authenticated(config, s, call) else (s, Refused)
    }

    function OutcomeAt(i: nat): Outcome
      requires i < |events|
    {
      match events[i]
      case Request(call) => Answer(StoreAt(i), call).1
      case _ => Refused
    }

    /** Tokens are drawn fresh. */
    ghost predicate FreshTokens() {
      forall i, j | 0 <= i < j < |events| && events[i].Request? && events[j].Request? ::
        events[i].call.drawn != events[j].call.drawn
    }

    /** Request `i` signs `id` in, and `id` has a second factor at that moment. */
    ghost predicate SecondFactorLogin(i: nat, id: string) {
      && i < |events| && OutcomeAt(i) == SignedIn(id)
      && config.secondFactor && id in StoreAt(i).rows && Enrolled(StoreAt(i).rows[id])
    }

    /** The call verified the password of an enrolled account and wrote it this challenge, answered with it or not. */
    ghost predicate Mints(s: Store, call: Call, entry: Pending) {
      && call.credentials.totp.None? && config.secondFactor
      && Unambiguous(s.rows, call.credentials.who)
      && Verified(config, s.rows, call) == Some(entry.subject) && Enrolled(s.rows[entry.subject])
      && Expiry(config.ttl, call.now, config.clock) == Ok(entry.expiresAt)
      && (Answer(s, call).1 == SecondFactorRequired(call.drawn)
          || (Answer(s, call).1 == Failed && call.faults.store.write.Unreported?))
    }

    /** Request `j` minted the challenge of this token and entry for `id`. */
    ghost predicate MintedAt(j: nat, id: string, token: string, entry: Pending) {
      && j < |events| && events[j].Request? && events[j].call.drawn == token
      && entry.subject == id && Mints(StoreAt(j), events[j].call, entry)
    }
  }

  // ----- One call

  /** A challenge is answered only after the password of an enrolled account, and is then what the store gained. */
  lemma CallMints(run: Run, s: Store, call: Call)
    requires run.Answer(s, call).1.SecondFactorRequired?
    ensures Unambiguous(s.rows, call.credentials.who)
    ensures var id := Verified(run.config, s.rows, call);
            && id.Some? && Enrolled(s.rows[id.value])
            && run.Answer(s, call).1 == SecondFactorRequired(call.drawn)
            && Expiry(run.config.ttl, call.now, run.config.clock).Ok?
            && run.Answer(s, call).0 ==
               s.(entries := s.entries[Sha256(call.drawn) :=
                    Pending(id.value, Expiry(run.config.ttl, call.now, run.config.clock).value)])
  {
    hide Verified, Redeemed, Upgraded;
  }

  /** Whatever entry a call leaves was there before, or the call minted it. */
  lemma CallKeepsOrMints(run: Run, s: Store, call: Call)
    ensures var t := run.Answer(s, call).0;
            forall key | key in t.entries ::
              || (key in s.entries && t.entries[key] == s.entries[key])
              || (key == Sha256(call.drawn) && run.Mints(s, call, t.entries[key]))
  {
    hide Verified, Upgraded;
    UpgradeKeepsEntries();
  }

  lemma UpgradeKeepsEntries()
    ensures forall config, s: Store, id, call | id in s.rows :: Upgraded(config, s, id, call).entries == s.entries
  {
  }

  /** A sign-in of an enrolled account claims a live challenge of its own and stores a newer period. */
  lemma CallSignsIn(run: Run, s: Store, call: Call, id: string)
    requires run.Answer(s, call).1 == SignedIn(id) && run.config.secondFactor
    requires id in s.rows && Enrolled(s.rows[id])
    ensures Unambiguous(s.rows, call.credentials.who) && Verified(run.config, s.rows, call) == Some(id)
    ensures call.credentials.challenge.Some?
    ensures var key := Sha256(call.credentials.challenge.value);
            && key in s.entries && s.entries[key].subject == id && call.now < s.entries[key].expiresAt
            && key !in run.Answer(s, call).0.entries
    ensures Accepts(Resumed(s.rows[id].lastPeriod), call.matching)
    ensures id in run.Answer(s, call).0.rows
    ensures run.Answer(s, call).0.rows[id].lastPeriod ==
            if call.matching.value < 0x8000_0000_0000_0000 then Some(call.matching.value) else None
  {
    hide Verified;
  }

  /** The call's period write was made and answered with a failure, and so was the call. */
  ghost predicate PeriodUnreported(run: Run, s: Store, call: Call) {
    run.Answer(s, call).1 == Failed && call.faults.writePeriod.Unreported?
  }

  /**
   Rows are written only by a call that signs somebody in, or whose period write is made and reported as failed:
   only the row of the account whose password it gave, only its period, and its hash when it signs in.
   */
  lemma CallWritesOnlyOnSignIn(run: Run, s: Store, call: Call)
    ensures var (t, outcome) := run.Answer(s, call);
            && (!outcome.SignedIn? && !PeriodUnreported(run, s, call) ==> t.rows == s.rows)
            && (outcome.SignedIn? || t.rows != s.rows ==>
                  && Unambiguous(s.rows, call.credentials.who) && Verified(run.config, s.rows, call).Some?
                  && var id := Verified(run.config, s.rows, call).value;
                  && (outcome.SignedIn? ==> outcome.id == id)
                  && id in t.rows && t.rows == s.rows[id := t.rows[id]]
                  && t.rows[id] == s.rows[id].(phc := t.rows[id].phc, lastPeriod := t.rows[id].lastPeriod)
                  && (t.rows[id].phc == s.rows[id].phc
                      || (outcome.SignedIn? && t.rows[id].phc == Hash(call.credentials.password, false))))
  {
    hide Redeemed, RowOf;
  }

  /**
   A call that signs nobody in writes a row exactly when it brings all that a second step asks for, its period write
   is made and reported as failed, and the period is not the stored one.
   */
  lemma FailedCallWritesExactly(run: Run, s: Store, call: Call)
    requires !run.Answer(s, call).1.SignedIn?
    ensures run.Answer(s, call).0.rows != s.rows <==>
            exists id | id in s.rows ::
              && Earns(run.config, s, call, id) && call.faults.writePeriod.Unreported?
              && s.rows[id].lastPeriod != StoredPeriod(call.matching.value)
  {
    hide RowOf, Upgraded;
  }

  /** An enrolled account is signed in exactly by a call that brings all that and whose period write is made and reported. */
  lemma SignsInExactly(run: Run, s: Store, call: Call, id: string)
    requires run.config.secondFactor && id in s.rows && Enrolled(s.rows[id])
    ensures run.Answer(s, call).1 == SignedIn(id) <==>
            Earns(run.config, s, call, id) && call.faults.writePeriod.Done?
  {
    hide RowOf, Upgraded;
  }

  /** Any other account, or one without a second factor configured, needs the password alone. */
  lemma PasswordSignsInExactly(run: Run, s: Store, call: Call, id: string)
    requires id in s.rows && !(run.config.secondFactor && Enrolled(s.rows[id]))
    ensures run.Answer(s, call).1 == SignedIn(id) <==> Identifies(run.config, s, call, id)
  {
    hide RowOf, Upgraded;
  }

  /** A challenge is answered exactly to the password of an enrolled account without a code, when it can be written. */
  lemma AsksExactly(run: Run, s: Store, call: Call)
    ensures run.Answer(s, call).1 == SecondFactorRequired(call.drawn) <==>
            exists id | id in s.rows ::
              && Identifies(run.config, s, call, id) && run.config.secondFactor && Enrolled(s.rows[id])
              && call.credentials.totp.None? && Expiry(run.config.ttl, call.now, run.config.clock).Ok?
              && call.faults.store.write.Done?
  {
    hide RowOf, Upgraded;
  }

  // ----- What a refused or failed call does

  /**
   A challenge presented with a code, after the password of an enrolled account, is gone afterwards whatever it was
   worth: minted for somebody else, expired, or with a wrong code. Only a store that did not take the delete keeps it.
   */
  lemma PresentedIsGone(run: Run, s: Store, call: Call, id: string)
    requires Identifies(run.config, s, call, id) && run.config.secondFactor && id in s.rows && Enrolled(s.rows[id])
    requires call.credentials.totp.Some? && call.credentials.challenge.Some?
    requires !call.faults.store.read && !call.faults.store.delete.Lost?
    ensures Sha256(call.credentials.challenge.value) !in run.Answer(s, call).0.entries
  {
    hide RowOf;
    UpgradeKeepsEntries();
  }

  /**
   Where nothing is earned nothing happens: an unknown identity, a wrong password and a suspended account are one
   refusal.
   */
  lemma NothingEarned(run: Run, s: Store, call: Call)
    requires Unambiguous(s.rows, call.credentials.who) && Verified(run.config, s.rows, call).None?
    requires !call.faults.read && !call.faults.verify && !call.faults.load
    requires forall id | id in s.rows && Matches(s.rows[id], call.credentials.who) :: s.rows[id].phc.Hash?
    ensures run.Answer(s, call) == (s, Refused)
  {
  }

  /** Whose password it is and whether the account may sign in, of the one row the identity matches. */
  lemma VerifiedExactly(config: Config, rows: Rows, call: Call, id: string)
    requires Unambiguous(rows, call.credentials.who)
    ensures Verified(config, rows, call) == Some(id) <==>
            && id in rows
            && (rows[id].identity == call.credentials.who.normalised || rows[id].identity == call.credentials.who.typed)
            && rows[id].phc.Hash? && rows[id].phc.password == call.credentials.password
            && (config.activeColumn ==> rows[id].active) && rows[id].usable
  {
    if id in rows && Matches(rows[id], call.credentials.who) {
      assert id in Matching(rows, call.credentials.who);
    }
  }

  /** A wrong second step with a store that answers is refused, and writes no row. */
  lemma WrongStepIsRefused(run: Run, s: Store, call: Call, id: string)
    requires Identifies(run.config, s, call, id) && run.config.secondFactor && id in s.rows && Enrolled(s.rows[id])
    requires call.credentials.totp.Some? && !call.faults.store.read && call.faults.store.delete.Done?
    requires !call.faults.badSecret && !call.faults.check && !Earns(run.config, s, call, id)
    ensures run.Answer(s, call).1 == Refused && run.Answer(s, call).0.rows == s.rows
  {
    hide RowOf;
  }

  /** A store that does not answer fails the call: it is never a refusal, and never skips the factor. */
  lemma OutageFails(run: Run, s: Store, call: Call, id: string)
    requires Identifies(run.config, s, call, id) && run.config.secondFactor && id in s.rows && Enrolled(s.rows[id])
    requires match call.credentials.totp {
               case None => !call.faults.store.write.Done?
               case Some(_) =>
                 && call.credentials.challenge.Some?
                 && (call.faults.store.read
                     || (Sha256(call.credentials.challenge.value) in s.entries && !call.faults.store.delete.Done?))
             }
    ensures run.Answer(s, call).1 == Failed && run.Answer(s, call).0.rows == s.rows
  {
    hide RowOf;
  }

  /** A failure before the second factor fails the call and changes nothing; so does a hash that cannot be read. */
  lemma EarlyFaultFails(run: Run, s: Store, call: Call)
    requires Unambiguous(s.rows, call.credentials.who)
    requires || call.faults.read || call.faults.verify
             || (exists id | id in s.rows && Matches(s.rows[id], call.credentials.who) :: s.rows[id].phc.Malformed?)
             || (call.faults.load
                 && exists id | id in s.rows && Matches(s.rows[id], call.credentials.who) ::
                      s.rows[id].phc.Hash? && s.rows[id].phc.password == call.credentials.password)
    ensures run.Answer(s, call) == (s, Failed)
  {
    var who := call.credentials.who;
    forall id | id in s.rows && Matches(s.rows[id], who) ensures RowOf(s.rows, who) == Some(id) {
      assert id in Matching(s.rows, who);
    }
  }

  /**
   Signing in leaves a hash of the presented password when the stored one has aged and upgrades are on, and else the
   stored one.
   */
  lemma UpgradesExactly(run: Run, s: Store, call: Call, id: string)
    requires run.Answer(s, call).1 == SignedIn(id)
    ensures id in s.rows && id in run.Answer(s, call).0.rows && s.rows[id].phc.Hash?
    ensures run.Answer(s, call).0.rows[id].phc ==
            if run.config.rehashOnLogin && s.rows[id].phc.aged && !call.faults.rehash.Lost?
            then Hash(call.credentials.password, false)
            else s.rows[id].phc
  {
    hide RowOf;
  }

  /** An account is enrolled when its secret has a character that is not white space. */
  lemma EnrolledExactly(row: Row)
    ensures Enrolled(row) <==>
            row.secret.Some? && exists i | 0 <= i < |row.secret.value| :: !Text.IsWhitespace(row.secret.value[i])
  {
    if row.secret.Some? {
      var before, after := TextFacts.TrimParts(row.secret.value);
      var core := Text.Trim(row.secret.value);
      if core != "" {
        assert row.secret.value[|before|] == core[0];
      } else {
        assert row.secret.value == before + after;
      }
    }
  }

  /** A code is accepted when its period is above the stored one; a stored negative period counts for nothing. */
  lemma AcceptsExactly(lastPeriod: Option<int>, matching: Option<nat>)
    ensures Accepts(Resumed(lastPeriod), matching) <==>
            matching.Some? && (lastPeriod.None? || lastPeriod.value < 0 || lastPeriod.value < matching.value)
  {
  }

  // ----- One account, one call whose write is not reported

  const ACCOUNT := Row("u", Hash("p", false), Some("k"), None, true, true)

  const ONE_LOGIN := Store(map["u" := ACCOUNT], map[Sha256("t") := Pending("u", 10)])

  const UNREPORTED := Call(
    Credentials(Identity("u", "u"), "p", Some("1"), Some("t")), 0, "d", Some(5),
    Faults(false, false, false, Outage(Done, false, Done), false, false, Unreported, Done))

  /** The call fails, and the account's period is written all the same. */
  lemma UnreportedWriteStays(config: Config)
    requires config.secondFactor
    ensures var (after, outcome) := Run(config, ONE_LOGIN.rows, []).Answer(ONE_LOGIN, UNREPORTED);
            outcome == Failed && after.rows == map["u" := ACCOUNT.(lastPeriod := Some(5))]
  {
    var run := Run(config, ONE_LOGIN.rows, []);
    OnlyAccount();
    EarnedBy(config);
    CallWritesOnlyOnSignIn(run, ONE_LOGIN, UNREPORTED);
    CallRaisesPeriod(run, ONE_LOGIN, UNREPORTED, "u");
  }

  lemma OnlyAccount()
    ensures Unambiguous(ONE_LOGIN.rows, UNREPORTED.credentials.who)
    ensures RowOf(ONE_LOGIN.rows, UNREPORTED.credentials.who) == Some("u")
  {
    assert Matching(ONE_LOGIN.rows, UNREPORTED.credentials.who) == {"u"} by {
      assert Matches(ONE_LOGIN.rows["u"], UNREPORTED.credentials.who);
    }
  }

  lemma EarnedBy(config: Config)
    requires config.secondFactor
    ensures Earns(config, ONE_LOGIN, UNREPORTED, "u")
  {
    OnlyAccount();
    assert Text.Trim("k") == "k";
  }

  /** A call leaves an account's period alone, or raises it to the one whose code it was given. */
  lemma CallRaisesPeriod(run: Run, s: Store, call: Call, id: string)
    requires id in s.rows
    ensures var t := run.Answer(s, call).0;
            && id in t.rows
            && (|| t.rows[id].lastPeriod == s.rows[id].lastPeriod
                || (&& Accepts(Resumed(s.rows[id].lastPeriod), call.matching)
                    && t.rows[id].lastPeriod == StoredPeriod(call.matching.value)))
  {
    hide Redeemed, Verified;
  }

  // ----- Every run

  /** Whatever the store holds was minted by an earlier request that verified its subject's password. */
  lemma {:induction false} EntriesAreMinted(run: Run, i: nat, key: Digest) returns (j: nat)
    requires i <= |run.events| && key in run.StoreAt(i).entries
    ensures var entry := run.StoreAt(i).entries[key];
            j < i && run.MintedAt(j, entry.subject, key.token, entry)
    decreases i
  {
    hide Authenticated, Run.Mints;
    var s := run.StoreAt(i - 1);
    match run.events[i - 1]
    case Request(call) =>
      CallKeepsOrMints(run, s, call);
      if key in s.entries && run.StoreAt(i).entries[key] == s.entries[key] {
        j := EntriesAreMinted(run, i - 1, key);
      } else {
        j := i - 1;
      }
    case Drop(_) => j := EntriesAreMinted(run, i - 1, key);
    case Edit(_, _) => j := EntriesAreMinted(run, i - 1, key);
  }

  /** Once minted and gone, an entry never comes back. */
  lemma {:induction false} GoneStaysGone(run: Run, j: nat, i: nat, k: nat, id: string, token: string, entry: Pending)
    requires run.FreshTokens() && run.MintedAt(j, id, token, entry)
    requires j < i <= k <= |run.events| && Sha256(token) !in run.StoreAt(i).entries
    ensures Sha256(token) !in run.StoreAt(k).entries
    decreases k
  {
    hide Verified, Authenticated, Unambiguous;
    if i < k {
      GoneStaysGone(run, j, i, k - 1, id, token, entry);
      var s := run.StoreAt(k - 1);
      if run.events[k - 1].Request? {
        var call := run.events[k - 1].call;
        assert call.drawn != token;
        CallKeepsOrMints(run, s, call);
      }
    }
  }

  /**
   Every sign-in of an enrolled account uses a challenge that an earlier request minted
   for the same account after verifying its password, and uses it within its lifetime.
   */
  lemma LoginUsesEarnedChallenge(run: Run, i: nat, id: string) returns (j: nat, entry: Pending)
    requires run.SecondFactorLogin(i, id)
    ensures run.events[i].Request? && run.events[i].call.credentials.challenge.Some?
    ensures j < i && run.MintedAt(j, id, run.events[i].call.credentials.challenge.value, entry)
    ensures run.events[i].call.now < entry.expiresAt == run.events[j].call.now + run.config.ttl
    ensures Sha256(run.events[i].call.credentials.challenge.value) !in run.StoreAt(i + 1).entries
  {
    hide Verified, Authenticated, Unambiguous, Redeemed;
    var call := run.events[i].call;
    CallSignsIn(run, run.StoreAt(i), call, id);
    var key := Sha256(call.credentials.challenge.value);
    entry := run.StoreAt(i).entries[key];
    j := EntriesAreMinted(run, i, key);
  }

  /** No challenge signs anybody in twice. */
  lemma ChallengeUsedOnce(run: Run, i: nat, k: nat, a: string, b: string)
    requires run.FreshTokens() && i < k && run.SecondFactorLogin(i, a) && run.SecondFactorLogin(k, b)
    ensures run.events[i].Request? && run.events[k].Request?
    ensures run.events[i].call.credentials.challenge != run.events[k].call.credentials.challenge
  {
    hide Run.MintedAt, Authenticated, Unambiguous, Verified;
    var j, entry := LoginUsesEarnedChallenge(run, i, a);
    var first := run.events[i].call.credentials.challenge;
    CallSignsIn(run, run.StoreAt(k), run.events[k].call, b);
    GoneStaysGone(run, j, i + 1, k, a, first.value, entry);
  }

  /**
   Of two requests that present one challenge, the second does not pass the second factor, however the first was
   answered, once the first gave an enrolled account's password and a code to a store that took the delete.
   */
  lemma SecondPresentationFails(run: Run, i: nat, k: nat, id: string, token: string)
    requires i < k < |run.events| && run.events[i].Request? && run.events[k].Request?
    requires run.events[i].call.credentials.challenge == run.events[k].call.credentials.challenge == Some(token)
    requires var s, call := run.StoreAt(i), run.events[i].call;
             && Identifies(run.config, s, call, id) && run.config.secondFactor && id in s.rows && Enrolled(s.rows[id])
             && call.credentials.totp.Some? && !call.faults.store.read && !call.faults.store.delete.Lost?
    requires forall m | i < m < k && run.events[m].Request? :: run.events[m].call.drawn != token
    ensures forall other :: !run.SecondFactorLogin(k, other)
  {
    hide Run.Answer, Verified, Unambiguous, Enrolled;
    PresentedIsGone(run, run.StoreAt(i), run.events[i].call, id);
    RequestStep(run, i);
    StaysGone(run, i + 1, k, token);
    forall other ensures !run.SecondFactorLogin(k, other) {
      if run.SecondFactorLogin(k, other) {
        RequestStep(run, k);
        CallSignsIn(run, run.StoreAt(k), run.events[k].call, other);
      }
    }
  }

  lemma {:induction false} StaysGone(run: Run, i: nat, k: nat, token: string)
    requires i <= k <= |run.events| && Sha256(token) !in run.StoreAt(i).entries
    requires forall m | i <= m < k && run.events[m].Request? :: run.events[m].call.drawn != token
    ensures Sha256(token) !in run.StoreAt(k).entries
    decreases k
  {
    hide Run.Answer, Run.Mints;
    if i < k {
      StaysGone(run, i, k - 1, token);
      if run.events[k - 1].Request? {
        CallKeepsOrMints(run, run.StoreAt(k - 1), run.events[k - 1].call);
      }
    }
  }

  // ----- That a login succeeds

  /** The event leaves the challenge of this token alone: nobody presents it, draws it again or drops it. */
  predicate LeavesAlone(event: Event, token: string) {
    match event
    case Request(call) => call.credentials.challenge != Some(token) && call.drawn != token
    case Drop(key) => key != Sha256(token)
    case Edit(_, _) => true
  }

  lemma CallLeavesAlone(run: Run, s: Store, call: Call, token: string)
    requires LeavesAlone(Request(call), token) && Sha256(token) in s.entries
    ensures var t := run.Answer(s, call).0; Sha256(token) in t.entries && t.entries[Sha256(token)] == s.entries[Sha256(token)]
  {
    hide Verified, Upgraded, RowOf;
    UpgradeKeepsEntries();
  }

  lemma {:induction false} EntryStays(run: Run, j: nat, i: nat, token: string)
    requires j <= i <= |run.events| && Sha256(token) in run.StoreAt(j).entries
    requires forall m | j <= m < i :: LeavesAlone(run.events[m], token)
    ensures Sha256(token) in run.StoreAt(i).entries
    ensures run.StoreAt(i).entries[Sha256(token)] == run.StoreAt(j).entries[Sha256(token)]
    decreases i
  {
    hide Authenticated;
    if j < i {
      EntryStays(run, j, i - 1, token);
      if run.events[i - 1].Request? {
        CallLeavesAlone(run, run.StoreAt(i - 1), run.events[i - 1].call, token);
      }
    }
  }

  lemma RequestStep(run: Run, i: nat)
    requires i < |run.events| && run.events[i].Request?
    ensures (run.StoreAt(i + 1), run.OutcomeAt(i)) == run.Answer(run.StoreAt(i), run.events[i].call)
  {
    hide Run.Answer;
  }

  /**
   A login that nothing disturbs succeeds: the challenge answered to the password, presented within its lifetime
   with the password again and a code of a newer period, signs the account in.
   */
  lemma UndisturbedLoginSucceeds(run: Run, j: nat, i: nat, id: string)
    requires j < i < |run.events| && run.events[j].Request? && run.events[i].Request?
    requires run.OutcomeAt(j) == SecondFactorRequired(run.events[j].call.drawn)
    requires Identifies(run.config, run.StoreAt(j), run.events[j].call, id)
    requires forall m | j < m < i :: LeavesAlone(run.events[m], run.events[j].call.drawn)
    requires var call, s := run.events[i].call, run.StoreAt(i);
             && Identifies(run.config, s, call, id) && run.config.secondFactor && id in s.rows && Enrolled(s.rows[id])
             && call.credentials.totp.Some? && call.credentials.challenge == Some(run.events[j].call.drawn)
             && call.now < run.events[j].call.now + run.config.ttl
             && Accepts(Resumed(s.rows[id].lastPeriod), call.matching)
             && !call.faults.store.read && call.faults.store.delete.Done?
             && !call.faults.badSecret && !call.faults.check && call.faults.writePeriod.Done?
    ensures run.OutcomeAt(i) == SignedIn(id)
  {
    hide Verified, Unambiguous, Enrolled, Accepts, Resumed, Run.Answer, Run.StoreAt, Run.OutcomeAt, LeavesAlone;
    var token := run.events[j].call.drawn;
    RequestStep(run, j);
    RequestStep(run, i);
    CallMints(run, run.StoreAt(j), run.events[j].call);
    EntryStays(run, j + 1, i, token);
    SignsInExactly(run, run.StoreAt(i), run.events[i].call, id);
  }

  /** No edit of the account from event `i` up to event `k` lowers its period or takes it away. */
  ghost predicate NeverLowered(run: Run, id: string, i: nat, k: nat)
    requires i <= k <= |run.events|
  {
    forall m | i <= m < k && run.events[m].Edit? && run.events[m].id == id && id in run.StoreAt(m).rows ::
      NotBelow(run.StoreAt(m).rows[id].lastPeriod, run.events[m].row.lastPeriod)
  }

  ghost predicate NotBelow(before: Option<int>, after: Option<int>) {
    Resumed(before).Some? ==> Resumed(after).Some? && Resumed(before).value <= Resumed(after).value
  }

  /** Every period in the run fits the column's type. */
  ghost predicate PeriodsFit(run: Run) {
    forall m | 0 <= m < |run.events| && run.events[m].Request? && run.events[m].call.matching.Some? ::
      run.events[m].call.matching.value <= I64_MAX
  }

  /** A stored period is never lowered by requests, answered or failed. */
  lemma {:induction false} PeriodNeverFalls(run: Run, id: string, i: nat, k: nat)
    requires i <= k <= |run.events| && NeverLowered(run, id, i, k) && PeriodsFit(run)
    requires id in run.StoreAt(i).rows
    ensures id in run.StoreAt(k).rows
    ensures NotBelow(run.StoreAt(i).rows[id].lastPeriod, run.StoreAt(k).rows[id].lastPeriod)
    decreases k
  {
    hide Run.Answer, Resumed;
    if i < k {
      PeriodNeverFalls(run, id, i, k - 1);
      var s := run.StoreAt(k - 1);
      if run.events[k - 1].Request? {
        PeriodStep(run, s, run.events[k - 1].call, id);
      }
    }
  }

  lemma PeriodStep(run: Run, s: Store, call: Call, id: string)
    requires id in s.rows && (call.matching.Some? ==> call.matching.value <= I64_MAX)
    ensures var t := run.Answer(s, call).0; id in t.rows && NotBelow(s.rows[id].lastPeriod, t.rows[id].lastPeriod)
  {
    hide Authenticated;
    CallRaisesPeriod(run, s, call, id);
  }

  /**
   Each second-factor login of an account stores a strictly newer period than the one before, whatever else
   happens in between that does not lower the period from outside.
   */
  lemma PeriodsIncrease(run: Run, i: nat, k: nat, id: string)
    requires PeriodsFit(run)
    requires i < k && run.SecondFactorLogin(i, id) && run.SecondFactorLogin(k, id) && NeverLowered(run, id, i + 1, k)
    ensures id in run.StoreAt(i + 1).rows && id in run.StoreAt(k + 1).rows
    ensures var first := run.StoreAt(i + 1).rows[id].lastPeriod;
            var second := run.StoreAt(k + 1).rows[id].lastPeriod;
            first.Some? && second.Some? && first.value < second.value
  {
    hide Authenticated, Verified;
    CallSignsIn(run, run.StoreAt(i), run.events[i].call, id);
    PeriodNeverFalls(run, id, i + 1, k);
    CallSignsIn(run, run.StoreAt(k), run.events[k].call, id);
  }

  /**
   In every run a row changes only by an edit of it, by the request that signs its account in, or by one that gave
   its password and whose period write took effect though it was reported as failed, which changes the period alone.
   */
  lemma RowsChangeOnlyOnSignIn(run: Run, i: nat, id: string)
    requires i < |run.events| && id in run.StoreAt(i).rows
    requires id !in run.StoreAt(i + 1).rows || run.StoreAt(i + 1).rows[id] != run.StoreAt(i).rows[id]
    ensures match run.events[i] {
              case Request(call) =>
                || run.OutcomeAt(i) == SignedIn(id)
                || (&& run.OutcomeAt(i) == Failed && call.faults.writePeriod.Unreported?
                    && Unambiguous(run.StoreAt(i).rows, call.credentials.who)
                    && Verified(run.config, run.StoreAt(i).rows, call) == Some(id)
                    && id in run.StoreAt(i + 1).rows
                    && run.StoreAt(i + 1).rows[id] ==
                       run.StoreAt(i).rows[id].(lastPeriod := run.StoreAt(i + 1).rows[id].lastPeriod))
              case Drop(_) => false
              case Edit(edited, _) => edited == id
            }
  {
    hide Verified, Authenticated, Unambiguous;
    if run.events[i].Request? {
      CallWritesOnlyOnSignIn(run, run.StoreAt(i), run.events[i].call);
    }
  }
}
