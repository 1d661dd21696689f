/**
 Second steps of one account at once. Each reads the stored period, claims its challenge, and writes the period its
 code came from, as three separate operations; nothing compares the stored period again at the write.
 */
module SecondSteps {
  import opened Wrappers
  import opened Login

  /** How far one call has got. `readAt` counts the writes made before its read, `wroteAt` those before its write. */
  datatype Attempt =
    | Begun(token: string, matching: Option<nat>)
    | HasRead(token: string, matching: Option<nat>, seen: Option<nat>, readAt: nat)
    | Claimed(token: string, matching: Option<nat>, seen: Option<nat>, readAt: nat)
    | Accepted(token: string, period: nat, readAt: nat, wroteAt: nat)
    | Stopped

  /** The stored period, the live challenges of the account, the calls, every challenge claimed, and every period written. */
  datatype State = State(
    period: Option<nat>, live: set<string>, attempts: map<nat, Attempt>, claimed: set<string>, writes: seq<nat>)

  datatype Step =
    | Mint(drawn: string)
    | Drop(gone: string)
    | Begin(id: nat, presented: string, code: Option<nat>)
    | Read(reader: nat)
    | Claim(claimer: nat)
    | Check(checker: nat)

  /** One atomic step of anyone. A step that does not apply leaves the state alone. */
  function Next(s: State, step: Step): State {
    match step
    case Mint(token) => if token in s.claimed then s else s.(live := s.live + {token})
    case Drop(token) => s.(live := s.live - {token})
    case Begin(id, token, code) =>
      if id in s.attempts then s else s.(attempts := s.attempts[id := Begun(token, code)])
    case Read(id) =>
      if id in s.attempts && s.attempts[id].Begun? then
        var a := s.attempts[id];
        s.(attempts := s.attempts[id := HasRead(a.token, a.matching, s.period, |s.writes|)])
      else s
    case Claim(id) =>
      if id in s.attempts && s.attempts[id].HasRead? then
        var a := s.attempts[id];
        if a.token in s.live then
          s.(live := s.live - {a.token}, claimed := s.claimed + {a.token},
             attempts := s.attempts[id := Claimed(a.token, a.matching, a.seen, a.readAt)])
        else s.(attempts := s.attempts[id := Stopped])
      else s
    case Check(id) =>
      if id in s.attempts && s.attempts[id].Claimed? then
        var a := s.attempts[id];
        if Accepts(a.seen, a.matching) then
          s.(period := a.matching, writes := s.writes + [a.matching.value],
             attempts := s.attempts[id := Accepted(a.token, a.matching.value, a.readAt, |s.writes|)])
        else s.(attempts := s.attempts[id := Stopped])
      else s
  }

  function Run(s: State, steps: seq<Step>): State
    decreases |steps|
  {
    if steps == [] then s else Run(Next(s, steps[0]), steps[1..])
  }

  function Initial(period: Option<nat>): State {
    State(period, {}, map[], {}, [])
  }

  /** The stored period after the first `k` writes. */
  function PeriodAfter(initial: Option<nat>, writes: seq<nat>, k: nat): Option<nat>
    requires k <= |writes|
  {
    if k == 0 then initial else Some(writes[k - 1])
  }

  ghost predicate HoldsToken(a: Attempt, token: string) {
    (a.Claimed? || a.Accepted?) && a.token == token
  }

  /** What an attempt remembers is what it read, and what it wrote is above that. */
  ghost predicate Sound(initial: Option<nat>, writes: seq<nat>, a: Attempt) {
    match a
    case Begun(_, _) => true
    case HasRead(_, _, seen, readAt) => readAt <= |writes| && seen == PeriodAfter(initial, writes, readAt)
    case Claimed(_, _, seen, readAt) => readAt <= |writes| && seen == PeriodAfter(initial, writes, readAt)
    case Accepted(_, period, readAt, wroteAt) =>
      readAt <= wroteAt < |writes| && writes[wroteAt] == period
      && Accepts(PeriodAfter(initial, writes, readAt), Some(period))
    case Stopped => true
  }

  ghost predicate AllSound(initial: Option<nat>, s: State) {
    && s.period == PeriodAfter(initial, s.writes, |s.writes|)
    && forall id | id in s.attempts :: Sound(initial, s.writes, s.attempts[id])
  }

  ghost predicate TokensOnce(s: State) {
    && s.live !! s.claimed
    && (forall id, token | id in s.attempts && HoldsToken(s.attempts[id], token) :: token in s.claimed)
    && forall a, b, token | a in s.attempts && b in s.attempts
         && HoldsToken(s.attempts[a], token) && HoldsToken(s.attempts[b], token) :: a == b
  }

  ghost predicate WrittenBy(s: State, id: nat, w: nat) {
    id in s.attempts && s.attempts[id].Accepted? && s.attempts[id].wroteAt == w
  }

  ghost predicate HasWriter(s: State, w: nat) {
    exists id :: WrittenBy(s, id, w)
  }

  /** Every write is some accepted attempt's. */
  ghost predicate WritesAreAccepted(s: State) {
    forall w | 0 <= w < |s.writes| :: HasWriter(s, w)
  }

  ghost predicate Invariant(initial: Option<nat>, s: State) {
    AllSound(initial, s) && TokensOnce(s) && WritesAreAccepted(s)
  }

  lemma StepKeepsSound(initial: Option<nat>, s: State, step: Step)
    requires AllSound(initial, s)
    ensures AllSound(initial, Next(s, step))
  {
  }

  lemma StepKeepsTokens(s: State, step: Step)
    requires TokensOnce(s)
    ensures TokensOnce(Next(s, step))
  {
  }

  lemma StepKeepsWrites(s: State, step: Step)
    requires WritesAreAccepted(s)
    ensures WritesAreAccepted(Next(s, step))
  {
    var t := Next(s, step);
    forall w | 0 <= w < |t.writes| ensures HasWriter(t, w) {
      if w < |s.writes| {
        assert HasWriter(s, w);
        var id :| WrittenBy(s, id, w);
        assert WrittenBy(t, id, w);
      } else {
        assert WrittenBy(t, step.checker, w);
      }
    }
  }

  lemma {:induction false} RunKeepsInvariant(initial: Option<nat>, s: State, steps: seq<Step>)
    requires Invariant(initial, s)
    ensures Invariant(initial, Run(s, steps))
    decreases |steps|
  {
    hide AllSound, TokensOnce, WritesAreAccepted, Next;
    if steps != [] {
      StepKeepsSound(initial, s, steps[0]);
      StepKeepsTokens(s, steps[0]);
      StepKeepsWrites(s, steps[0]);
      RunKeepsInvariant(initial, Next(s, steps[0]), steps[1..]);
    }
  }

  lemma Start(initial: Option<nat>)
    ensures Invariant(initial, Initial(initial))
  {
  }

  /** The two attempts succeeded. */
  ghost predicate BothAccepted(s: State, a: nat, b: nat) {
    a != b && a in s.attempts && b in s.attempts && s.attempts[a].Accepted? && s.attempts[b].Accepted?
  }

  /** In every interleaving no challenge signs in twice, and each success is above the period stored when it read. */
  lemma AcceptedIsAboveSeen(initial: Option<nat>, steps: seq<Step>, a: nat, b: nat)
    requires BothAccepted(Run(Initial(initial), steps), a, b)
    ensures var s := Run(Initial(initial), steps);
            && s.attempts[a].token != s.attempts[b].token
            && s.attempts[b].readAt <= s.attempts[b].wroteAt < |s.writes|
            && Accepts(PeriodAfter(initial, s.writes, s.attempts[b].readAt), Some(s.attempts[b].period))
  {
    Start(initial);
    RunKeepsInvariant(initial, Initial(initial), steps);
    var s := Run(Initial(initial), steps);
    assert HoldsToken(s.attempts[a], s.attempts[a].token) && HoldsToken(s.attempts[b], s.attempts[b].token);
  }

  /**
   When a call that claimed its challenge brings a code of a period that was accepted already: it is accepted again
   exactly when the period it read is below that, and so only if it read before the earlier write, or a lower
   period was written over that one before it read.
   */
  lemma AcceptedAgainExactly(initial: Option<nat>, steps: seq<Step>, a: nat, b: nat)
    requires var s := Run(Initial(initial), steps);
             && a in s.attempts && s.attempts[a].Accepted? && b in s.attempts && s.attempts[b].Claimed?
             && s.attempts[b].matching == Some(s.attempts[a].period)
    ensures var s := Run(Initial(initial), steps);
            var p, first, readAt := s.attempts[a].period, s.attempts[a].wroteAt, s.attempts[b].readAt;
            && readAt <= |s.writes| && first < |s.writes|
            && var seen := PeriodAfter(initial, s.writes, readAt);
            && (Next(s, Check(b)).attempts[b].Accepted? <==> seen.None? || seen.value < p)
            && (Next(s, Check(b)).attempts[b].Accepted? ==>
                  readAt <= first || exists w | first < w < readAt :: s.writes[w] < p)
  {
    Start(initial);
    RunKeepsInvariant(initial, Initial(initial), steps);
    var s := Run(Initial(initial), steps);
    assert Sound(initial, s.writes, s.attempts[a]) && Sound(initial, s.writes, s.attempts[b]);
    var readAt := s.attempts[b].readAt;
    if readAt > s.attempts[a].wroteAt + 1 {
      assert s.attempts[a].wroteAt < readAt - 1 < readAt;
    }
  }

  /** No success wrote over one it had not read. */
  ghost predicate Serial(s: State) {
    forall id | id in s.attempts && s.attempts[id].Accepted? :: s.attempts[id].readAt == s.attempts[id].wroteAt
  }

  /** A write that is not above the one before it was made by an attempt that had not read that one. */
  lemma LoweredMeansOverlap(initial: Option<nat>, steps: seq<Step>, w: nat) returns (id: nat)
    requires var s := Run(Initial(initial), steps); 0 < w < |s.writes| && s.writes[w] <= s.writes[w - 1]
    ensures var s := Run(Initial(initial), steps);
            id in s.attempts && s.attempts[id].Accepted? && s.attempts[id].readAt < w == s.attempts[id].wroteAt
  {
    Start(initial);
    RunKeepsInvariant(initial, Initial(initial), steps);
    var s := Run(Initial(initial), steps);
    assert HasWriter(s, w);
    id :| WrittenBy(s, id, w);
    assert Sound(initial, s.writes, s.attempts[id]);
  }

  lemma {:induction false} Ascending(initial: Option<nat>, steps: seq<Step>, v: nat, w: nat)
    requires var s := Run(Initial(initial), steps); Serial(s) && v < w < |s.writes|
    ensures var s := Run(Initial(initial), steps); s.writes[v] < s.writes[w]
    decreases w
  {
    var s := Run(Initial(initial), steps);
    if s.writes[w] <= s.writes[w - 1] {
      var id := LoweredMeansOverlap(initial, steps, w);
      assert false;
    }
    if v < w - 1 {
      Ascending(initial, steps, v, w - 1);
    }
  }

  /** Where nobody writes over a period it has not read, no period is accepted twice, and later ones are higher. */
  lemma SerialStepsIncrease(initial: Option<nat>, steps: seq<Step>, a: nat, b: nat)
    requires var s := Run(Initial(initial), steps); Serial(s) && BothAccepted(s, a, b)
    ensures var s := Run(Initial(initial), steps);
            && s.attempts[a].wroteAt < |s.writes| && s.attempts[b].wroteAt < |s.writes|
            && (s.attempts[a].wroteAt < s.attempts[b].wroteAt ==> s.attempts[a].period < s.attempts[b].period)
  {
    Start(initial);
    RunKeepsInvariant(initial, Initial(initial), steps);
    var s := Run(Initial(initial), steps);
    assert Sound(initial, s.writes, s.attempts[a]) && Sound(initial, s.writes, s.attempts[b]);
    if s.attempts[a].wroteAt < s.attempts[b].wroteAt {
      Ascending(initial, steps, s.attempts[a].wroteAt, s.attempts[b].wroteAt);
    }
  }

  /** Two calls with codes of one period, each step of the one followed by the same step of the other. */
  function AtOnce(p: nat): seq<Step> {
    [Mint("x"), Mint("y")] + ([Begin(0, "x", Some(p)), Begin(1, "y", Some(p))] + AfterBegin())
  }

  function AfterBegin(): seq<Step> {
    [Read(0), Read(1)] + ([Claim(0), Claim(1)] + ([Check(0), Check(1)] + []))
  }

  /** Both read before either writes, and both are accepted with one period, each with its own challenge. */
  lemma OnePeriodTwice(initial: Option<nat>, p: nat)
    requires Accepts(initial, Some(p))
    ensures var s := Run(Initial(initial), AtOnce(p));
            BothAccepted(s, 0, 1) && s.attempts[0].period == s.attempts[1].period == p && s.writes == [p, p]
  {
    hide Next, AfterBegin;
    BothMinted(initial);
    TwoSteps(Initial(initial), Mint("x"), Mint("y"), [Begin(0, "x", Some(p)), Begin(1, "y", Some(p))] + AfterBegin());
    var minted := State(initial, {"x", "y"}, map[], {}, []);
    BothBegin(minted, p);
    TwoSteps(minted, Begin(0, "x", Some(p)), Begin(1, "y", Some(p)), AfterBegin());
    BothFinish(minted.(attempts := map[0 := Begun("x", Some(p)), 1 := Begun("y", Some(p))]), p);
  }

  lemma BothFinish(s: State, p: nat)
    requires s.attempts == map[0 := Begun("x", Some(p)), 1 := Begun("y", Some(p))] && s.writes == []
    requires s.live == {"x", "y"} && s.claimed == {} && Accepts(s.period, Some(p))
    ensures Run(s, AfterBegin()).attempts == map[0 := Accepted("x", p, 0, 0), 1 := Accepted("y", p, 0, 1)]
    ensures Run(s, AfterBegin()).writes == [p, p]
  {
    hide Next;
    BothRead(s, p);
    TwoSteps(s, Read(0), Read(1), [Claim(0), Claim(1)] + ([Check(0), Check(1)] + []));
    var read := s.(attempts := map[0 := HasRead("x", Some(p), s.period, 0), 1 := HasRead("y", Some(p), s.period, 0)]);
    BothClaim(read, p);
    TwoSteps(read, Claim(0), Claim(1), [Check(0), Check(1)] + []);
    var claimed := read.(live := {}, claimed := {"x", "y"},
      attempts := map[0 := Claimed("x", Some(p), s.period, 0), 1 := Claimed("y", Some(p), s.period, 0)]);
    BothCheck(claimed, p);
    TwoSteps(claimed, Check(0), Check(1), []);
  }

  lemma BothMinted(initial: Option<nat>)
    ensures Next(Next(Initial(initial), Mint("x")), Mint("y")) == State(initial, {"x", "y"}, map[], {}, [])
  {
  }

  lemma BothBegin(s: State, p: nat)
    requires s.attempts == map[]
    ensures Next(Next(s, Begin(0, "x", Some(p))), Begin(1, "y", Some(p))) ==
            s.(attempts := map[0 := Begun("x", Some(p)), 1 := Begun("y", Some(p))])
  {
  }

  lemma BothRead(s: State, p: nat)
    requires s.attempts == map[0 := Begun("x", Some(p)), 1 := Begun("y", Some(p))] && s.writes == []
    ensures Next(Next(s, Read(0)), Read(1)) ==
            s.(attempts := map[0 := HasRead("x", Some(p), s.period, 0), 1 := HasRead("y", Some(p), s.period, 0)])
  {
  }

  lemma BothClaim(s: State, p: nat)
    requires s.attempts == map[0 := HasRead("x", Some(p), s.period, 0), 1 := HasRead("y", Some(p), s.period, 0)]
    requires s.live == {"x", "y"} && s.claimed == {}
    ensures Next(Next(s, Claim(0)), Claim(1)) ==
            s.(live := {}, claimed := {"x", "y"},
               attempts := map[0 := Claimed("x", Some(p), s.period, 0), 1 := Claimed("y", Some(p), s.period, 0)])
  {
    assert "x"[0] != "y"[0];
  }

  lemma BothCheck(s: State, p: nat)
    requires s.attempts == map[0 := Claimed("x", Some(p), s.period, 0), 1 := Claimed("y", Some(p), s.period, 0)]
    requires s.writes == [] && Accepts(s.period, Some(p))
    ensures Next(Next(s, Check(0)), Check(1)) ==
            s.(period := Some(p), writes := [p, p],
               attempts := map[0 := Accepted("x", p, 0, 0), 1 := Accepted("y", p, 0, 1)])
  {
  }

  lemma TwoSteps(s: State, first: Step, second: Step, rest: seq<Step>)
    ensures Run(s, [first, second] + rest) == Run(Next(Next(s, first), second), rest)
  {
    var steps := [first, second] + rest;
    assert steps[1..] == [second] + rest && steps[1..][1..] == rest;
  }
}
