/**
  The search coordinator: argument checks, pattern set-up, and the rounds of
  parallel attempts that share one match counter.

  Threads are not modelled as threads. Each attempt of a round is a small
  state machine whose steps are its accesses to the shared counter (the
  early-out load, the load of `current`, the weak compare-and-swap) and its
  emission; a schedule interleaves the steps of the attempts arbitrarily.
  What the environment decides — the generated key, whether a weak CAS fails
  spuriously, whether saving the key file succeeds — comes with each step as
  a `Choice`.

  Claimed ordinals are tracked in `slots`: slot k belongs to ordinal k + 1 and
  says whether that ordinal is still held by an attempt, has been emitted, or
  was lost to a failed save.
 */
module Search {
  import opened Wrappers
  import opened Hex
  import opened Seqs
  import opened Patterns
  import opened Matcher
  import Intended

  /** The options of a vanity search. */
  datatype Config = Config(
    startsWith: Option<string>,
    endsWith: Option<string>,
    savePath: Option<string>,
    threads: nat,
    maxAddresses: nat,
    addressesPerRound: nat)

  /** Why the command line refuses a configuration. */
  datatype ArgError = NoPattern | ZeroCount | ZeroPerRound

  /** The command-line checks made before a search starts, in their order. */
  function CheckArgs(c: Config): (r: Result<(), ArgError>)
    ensures r.Ok? <==>
      (c.startsWith.Some? || c.endsWith.Some?) && c.maxAddresses > 0 && c.addressesPerRound > 0
    ensures r == Err(NoPattern) <==> c.startsWith.None? && c.endsWith.None?
    ensures r == Err(ZeroCount) ==> c.maxAddresses == 0
    ensures r == Err(ZeroPerRound) ==> c.maxAddresses > 0 && c.addressesPerRound == 0
  {
    if c.startsWith.None? && c.endsWith.None? then Err(NoPattern)
    else if c.maxAddresses == 0 then Err(ZeroCount)
    else if c.addressesPerRound == 0 then Err(ZeroPerRound)
    else Ok(())
  }

  /** Why the search could not start: a pattern did not parse. */
  datatype SetupError = StartsWithInvalid(cause: DecodeError) | EndsWithInvalid(cause: DecodeError)

  /** What the attempts of a search share: the target, the batch size, whether
      keys are saved, the parsed patterns and the test a candidate must pass. */
  datatype Env = Env(
    maxAddresses: nat,
    perRound: nat,
    saving: bool,
    starts: Option<Pattern>,
    ends: Option<Pattern>,
    accept: string -> bool)

  /** Parse an optional pattern. */
  function ParseOption(e: RegexEngine, p: Option<string>): Result<Option<Pattern>, DecodeError> {
    match p
    case None => Ok(None)
    case Some(text) =>
      var pat :- Parse(e, text);
      Ok(Some(pat))
  }

  /** Parse both patterns, the starts-with pattern first. */
  function ParsePatterns(e: RegexEngine, c: Config): (r: Result<(Option<Pattern>, Option<Pattern>), SetupError>)
    ensures r.Ok? <==> ParseOption(e, c.startsWith).Ok? && ParseOption(e, c.endsWith).Ok?
    ensures r.Ok? ==> r.value == (ParseOption(e, c.startsWith).value, ParseOption(e, c.endsWith).value)
    ensures ParseOption(e, c.startsWith).Err? ==>
      r == Err(StartsWithInvalid(ParseOption(e, c.startsWith).error))
    ensures ParseOption(e, c.startsWith).Ok? && ParseOption(e, c.endsWith).Err? ==>
      r == Err(EndsWithInvalid(ParseOption(e, c.endsWith).error))
  {
    match ParseOption(e, c.startsWith)
    case Err(err) => Err(StartsWithInvalid(err))
    case Ok(starts) =>
      match ParseOption(e, c.endsWith)
      case Err(err) => Err(EndsWithInvalid(err))
      case Ok(ends) => Ok((starts, ends))
  }

  /** Set a search up as the engine does: each candidate is checked with
      `matches_pattern` against the starts-with pattern, then the ends-with one. */
  function Prepare(e: RegexEngine, c: Config): (r: Result<Env, SetupError>)
    ensures r.Ok? <==> ParsePatterns(e, c).Ok?
    ensures r.Err? ==> r.error == ParsePatterns(e, c).error
    ensures r.Ok? ==>
      && r.value.maxAddresses == c.maxAddresses
      && r.value.perRound == c.addressesPerRound
      && (r.value.saving <==> c.savePath.Some?)
      && (r.value.starts, r.value.ends) == ParsePatterns(e, c).value
      && forall a :: r.value.accept(a) == Accepts(e, a, r.value.starts, r.value.ends)
  {
    match ParsePatterns(e, c)
    case Err(err) => Err(err)
    case Ok((starts, ends)) =>
      Ok(Env(c.maxAddresses, c.addressesPerRound, c.savePath.Some?, starts, ends,
             a => Accepts(e, a, starts, ends)))
  }

  /** The same set-up with the corrected matcher. */
  function PrepareCorrected(e: RegexEngine, c: Config): (r: Result<Env, SetupError>)
    ensures r.Ok? <==> ParsePatterns(e, c).Ok?
    ensures r.Err? ==> r.error == ParsePatterns(e, c).error
    ensures r.Ok? ==>
      && r.value.maxAddresses == c.maxAddresses
      && r.value.perRound == c.addressesPerRound
      && (r.value.saving <==> c.savePath.Some?)
      && (r.value.starts, r.value.ends) == ParsePatterns(e, c).value
      && forall a :: r.value.accept(a) == Intended.CorrectedAccepts(e, a, r.value.starts, r.value.ends)
  {
    match ParsePatterns(e, c)
    case Err(err) => Err(err)
    case Ok((starts, ends)) =>
      Ok(Env(c.maxAddresses, c.addressesPerRound, c.savePath.Some?, starts, ends,
             a => Intended.CorrectedAccepts(e, a, starts, ends)))
  }

  /** How an attempt ended. */
  datatype Outcome =
    | Skipped       // the target was already reached when the attempt began
    | KeyFailed     // key generation failed
    | NoMatch       // the address does not fit the patterns
    | TargetReached // the counter reached the target before the claim
    | LostRace      // the compare-and-swap failed; the match is dropped
    | SaveFailed    // the ordinal was claimed but the key file was not written
    | Emitted       // the match was reported with its ordinal

  /** Where an attempt is between its accesses to the shared counter. */
  datatype Phase =
    | Start
    | Matched(address: string)
    | Observed(address: string, current: nat)
    | Claimed(address: string, ordinal: nat)
    | Done(outcome: Outcome)

  /** The fate of one claimed ordinal. */
  datatype Slot = Pending(attempt: nat) | Printed(index: nat) | Dropped

  /** One reported match. */
  datatype Record = Record(ordinal: nat, address: string)

  /** The shared counter, the attempts tried so far, the attempts of the current
      round, the claimed ordinals and the reported matches. */
  datatype State = State(count: nat, tried: nat, attempts: seq<Phase>, slots: seq<Slot>, output: seq<Record>)

  /** What the environment decides for one step: the key generated (None when
      generation fails), whether a weak CAS fails spuriously, whether saving succeeds. */
  datatype Choice = Choice(key: Option<string>, spurious: bool, saveOk: bool)

  /** One scheduled step: which attempt moves, and with what. */
  datatype Move = Move(attempt: nat, choice: Choice)

  /** The interleaving of one round, and the choices with which each attempt
      is then run to completion. */
  datatype RoundPlan = RoundPlan(moves: seq<Move>, finish: seq<Choice>)

  /** The state before any round. */
  function Initial(): State {
    State(0, 0, [], [], [])
  }

  /** Steps an attempt still has to take at most. */
  function Rank(p: Phase): nat {
    match p
    case Start => 4
    case Matched(_) => 3
    case Observed(_, _) => 2
    case Claimed(_, _) => 1
    case Done(_) => 0
  }

  predicate PhaseOk(env: Env, s: State, i: nat)
    requires i < |s.attempts|
  {
    match s.attempts[i]
    case Start => true
    case Matched(a) => env.accept(a)
    case Observed(a, cur) => env.accept(a) && cur < env.maxAddresses
    case Claimed(a, o) => env.accept(a) && 1 <= o <= |s.slots| && s.slots[o - 1] == Pending(i)
    case Done(_) => true
  }

  predicate SlotOk(env: Env, s: State, k: nat)
    requires k < |s.slots|
  {
    match s.slots[k]
    case Pending(i) => i < |s.attempts| && s.attempts[i].Claimed? && s.attempts[i].ordinal == k + 1
    case Printed(j) => j < |s.output| && s.output[j].ordinal == k + 1
    case Dropped => env.saving
  }

  predicate OutputOk(env: Env, s: State, j: nat)
    requires j < |s.output|
  {
    var o := s.output[j].ordinal;
    1 <= o <= |s.slots| && s.slots[o - 1] == Printed(j) && env.accept(s.output[j].address)
  }

  /** The protocol invariant: the counter never passes the target and equals the
      number of claimed ordinals; each claimed ordinal is held by exactly one
      attempt, reported exactly once, or lost to a failed save; every reported
      address passed the patterns. */
  predicate Inv(env: Env, s: State) {
    && s.count <= env.maxAddresses
    && |s.slots| == s.count
    && (forall i: nat | i < |s.attempts| :: PhaseOk(env, s, i))
    && (forall k: nat | k < |s.slots| :: SlotOk(env, s, k))
    && (forall j: nat | j < |s.output| :: OutputOk(env, s, j))
  }

  /** `t` follows `s`: the counter did not go down and no report was withdrawn. */
  predicate Grows(s: State, t: State) {
    s.count <= t.count && IsPrefixOf(s.output, t.output) && s.tried == t.tried
  }

  /** One atomic step of attempt i. */
  function Step(env: Env, s: State, i: nat, c: Choice): (r: State)
    requires Inv(env, s) && i < |s.attempts|
    ensures |r.attempts| == |s.attempts| && r.tried == s.tried
    ensures forall i': nat | i' < |s.attempts| && i' != i :: r.attempts[i'] == s.attempts[i']
    ensures s.attempts[i].Done? ==> r == s
    ensures !s.attempts[i].Done? ==> Rank(r.attempts[i]) < Rank(s.attempts[i])
    // the early-out load, key generation and the pattern test
    ensures s.attempts[i].Start? && s.count >= env.maxAddresses ==> r.attempts[i] == Done(Skipped)
    ensures s.attempts[i].Start? && s.count < env.maxAddresses ==>
      r.attempts[i] == (if c.key.None? then Done(KeyFailed)
                        else if env.accept(c.key.value) then Matched(c.key.value)
                        else Done(NoMatch))
    // the load of `current`
    ensures s.attempts[i].Matched? ==>
      r.attempts[i] == (if s.count < env.maxAddresses then Observed(s.attempts[i].address, s.count)
                        else Done(TargetReached))
    // only a compare-and-swap from the observed value moves the counter, by one
    ensures r.count == s.count || r.count == s.count + 1
    ensures r.count == s.count + 1 <==>
      s.attempts[i].Observed? && s.attempts[i].current == s.count && !c.spurious
    ensures r.count == s.count + 1 ==> r.attempts[i] == Claimed(s.attempts[i].address, r.count)
    // a failed compare-and-swap drops the match, with no retry
    ensures s.attempts[i].Observed? && (s.attempts[i].current != s.count || c.spurious) ==>
      r.attempts[i] == Done(LostRace)
    // a claimed ordinal is reported, or lost to a failed save without giving it back
    ensures s.attempts[i].Claimed? && (!env.saving || c.saveOk) ==>
      r.output == s.output + [Record(s.attempts[i].ordinal, s.attempts[i].address)]
    ensures !(s.attempts[i].Claimed? && (!env.saving || c.saveOk)) ==> r.output == s.output
    ensures s.attempts[i].Claimed? && env.saving && !c.saveOk ==>
      r.attempts[i] == Done(SaveFailed) && r.count == s.count
  {
    assert PhaseOk(env, s, i);
    match s.attempts[i]
    case Start =>
      if s.count >= env.maxAddresses then s.(attempts := s.attempts[i := Done(Skipped)])
      else if c.key.None? then s.(attempts := s.attempts[i := Done(KeyFailed)])
      else if !env.accept(c.key.value) then s.(attempts := s.attempts[i := Done(NoMatch)])
      else s.(attempts := s.attempts[i := Matched(c.key.value)])
    case Matched(a) =>
      if s.count >= env.maxAddresses then s.(attempts := s.attempts[i := Done(TargetReached)])
      else s.(attempts := s.attempts[i := Observed(a, s.count)])
    case Observed(a, cur) =>
      if s.count == cur && !c.spurious then
        s.(count := cur + 1, attempts := s.attempts[i := Claimed(a, cur + 1)],
           slots := s.slots + [Pending(i)])
      else s.(attempts := s.attempts[i := Done(LostRace)])
    case Claimed(a, o) =>
      if env.saving && !c.saveOk then
        s.(attempts := s.attempts[i := Done(SaveFailed)], slots := s.slots[o - 1 := Dropped])
      else
        s.(attempts := s.attempts[i := Done(Emitted)],
           slots := s.slots[o - 1 := Printed(|s.output|)],
           output := s.output + [Record(o, a)])
    case Done(_) => s
  }

  lemma StepLocal(env: Env, s: State, i: nat, c: Choice)
    requires Inv(env, s) && i < |s.attempts| && !s.attempts[i].Observed? && !s.attempts[i].Claimed?
    ensures Inv(env, Step(env, s, i, c))
  {
    var r := Step(env, s, i, c);
    assert r.slots == s.slots && r.output == s.output && r.count == s.count;
    forall i': nat | i' < |r.attempts| ensures PhaseOk(env, r, i') {
      assert PhaseOk(env, s, i');
    }
    forall k: nat | k < |r.slots| ensures SlotOk(env, r, k) {
      assert SlotOk(env, s, k);
    }
    forall j: nat | j < |r.output| ensures OutputOk(env, r, j) {
      assert OutputOk(env, s, j);
    }
  }

  lemma StepSwap(env: Env, s: State, i: nat, c: Choice)
    requires Inv(env, s) && i < |s.attempts| && s.attempts[i].Observed?
    ensures Inv(env, Step(env, s, i, c))
  {
    var r := Step(env, s, i, c);
    assert r.output == s.output;
    assert PhaseOk(env, s, i);
    forall i': nat | i' < |r.attempts| ensures PhaseOk(env, r, i') {
      assert PhaseOk(env, s, i');
    }
    forall k: nat | k < |r.slots| ensures SlotOk(env, r, k) {
      if k < |s.slots| {
        assert SlotOk(env, s, k);
      }
    }
    forall j: nat | j < |r.output| ensures OutputOk(env, r, j) {
      assert OutputOk(env, s, j);
    }
  }

  lemma StepEmit(env: Env, s: State, i: nat, c: Choice)
    requires Inv(env, s) && i < |s.attempts| && s.attempts[i].Claimed?
    ensures Inv(env, Step(env, s, i, c))
  {
    var r := Step(env, s, i, c);
    var o := s.attempts[i].ordinal;
    assert PhaseOk(env, s, i);
    assert s.slots[o - 1] == Pending(i);
    forall i': nat | i' < |r.attempts| ensures PhaseOk(env, r, i') {
      assert PhaseOk(env, s, i');
    }
    forall k: nat | k < |r.slots| ensures SlotOk(env, r, k) {
      assert SlotOk(env, s, k);
    }
    forall j: nat | j < |r.output| ensures OutputOk(env, r, j) {
      if j < |s.output| {
        assert OutputOk(env, s, j);
      }
    }
  }

  /** Every step keeps the protocol invariant. */
  lemma StepKeepsInv(env: Env, s: State, i: nat, c: Choice)
    requires Inv(env, s) && i < |s.attempts|
    ensures Inv(env, Step(env, s, i, c))
  {
    if s.attempts[i].Observed? {
      StepSwap(env, s, i, c);
    } else if s.attempts[i].Claimed? {
      StepEmit(env, s, i, c);
    } else {
      StepLocal(env, s, i, c);
    }
  }

  /** Run the scheduled steps in order; a move naming no attempt of the round does nothing. */
  function RunSchedule(env: Env, s: State, moves: seq<Move>): (r: State)
    requires Inv(env, s)
    ensures Inv(env, r) && Grows(s, r) && |r.attempts| == |s.attempts|
    decreases |moves|
  {
    if moves == [] then s
    else
      var m := moves[0];
      var t := if m.attempt < |s.attempts| then (StepKeepsInv(env, s, m.attempt, m.choice);
                                                 Step(env, s, m.attempt, m.choice))
               else s;
      RunSchedule(env, t, moves[1..])
  }

  /** Run attempt i to its end with one choice. */
  function DrainOne(env: Env, s: State, i: nat, c: Choice): (r: State)
    requires Inv(env, s) && i < |s.attempts|
    ensures Inv(env, r) && Grows(s, r) && |r.attempts| == |s.attempts|
    ensures r.attempts[i].Done?
    ensures forall i': nat | i' < |s.attempts| && i' != i :: r.attempts[i'] == s.attempts[i']
    decreases Rank(s.attempts[i])
  {
    if s.attempts[i].Done? then s
    else
      StepKeepsInv(env, s, i, c);
      DrainOne(env, Step(env, s, i, c), i, c)
  }

  /** Run attempts k, k + 1, ... to their ends, each with its own choice. */
  function DrainFrom(env: Env, s: State, k: nat, finish: seq<Choice>): (r: State)
    requires Inv(env, s) && k <= |s.attempts| && |finish| == |s.attempts|
    requires forall i: nat | i < k :: s.attempts[i].Done?
    ensures Inv(env, r) && Grows(s, r) && |r.attempts| == |s.attempts|
    ensures forall i: nat | i < |r.attempts| :: r.attempts[i].Done?
    decreases |s.attempts| - k
  {
    if k == |s.attempts| then s
    else DrainFrom(env, DrainOne(env, s, k, finish[k]), k + 1, finish)
  }

  /** The attempts of a fresh round, all at their start. */
  function Fresh(n: nat): (ps: seq<Phase>)
    ensures |ps| == n && forall i | 0 <= i < n :: ps[i] == Start
  {
    if n == 0 then [] else Fresh(n - 1) + [Start]
  }

  /** One round: `perRound` fresh attempts run under the plan's interleaving and
      then to completion; `tried` grows by `perRound`. */
  function Round(env: Env, s: State, plan: RoundPlan): (r: State)
    requires Inv(env, s) && s.attempts == [] && |plan.finish| == env.perRound
    ensures Inv(env, r) && r.attempts == []
    ensures r.tried == s.tried + env.perRound
    ensures s.count <= r.count && IsPrefixOf(s.output, r.output)
  {
    var s0 := s.(attempts := Fresh(env.perRound));
    assert Inv(env, s0) by {
      forall k: nat | k < |s0.slots| ensures SlotOk(env, s0, k) {
        assert SlotOk(env, s, k);
      }
      forall j: nat | j < |s0.output| ensures OutputOk(env, s0, j) {
        assert OutputOk(env, s, j);
      }
    }
    var s1 := RunSchedule(env, s0, plan.moves);
    var s2 := DrainFrom(env, s1, 0, plan.finish);
    var r := s2.(attempts := [], tried := s.tried + env.perRound);
    assert Inv(env, r) by {
      forall k: nat | k < |r.slots| ensures SlotOk(env, r, k) {
        assert SlotOk(env, s2, k);
      }
      forall j: nat | j < |r.output| ensures OutputOk(env, r, j) {
        assert OutputOk(env, s2, j);
      }
    }
    r
  }

  /** The reported ordinals. */
  function Ordinals(out: seq<Record>): (os: seq<int>)
    ensures |os| == |out| && forall j | 0 <= j < |out| :: os[j] == out[j].ordinal
  {
    if out == [] then [] else Ordinals(out[..|out| - 1]) + [out[|out| - 1].ordinal]
  }

  /** In every reachable state the reported ordinals are distinct and lie in 1..count. */
  lemma OrdinalsDistinct(env: Env, s: State)
    requires Inv(env, s)
    ensures Distinct(Ordinals(s.output))
    ensures forall j | 0 <= j < |s.output| :: 1 <= s.output[j].ordinal <= s.count <= env.maxAddresses
  {
    var os := Ordinals(s.output);
    forall j1, j2 | 0 <= j1 < j2 < |os| ensures os[j1] != os[j2] {
      assert OutputOk(env, s, j1) && OutputOk(env, s, j2);
    }
    forall j | 0 <= j < |s.output| ensures 1 <= s.output[j].ordinal <= s.count {
      assert OutputOk(env, s, j);
    }
  }

  /** When the attempts are over and keys are only printed, every claimed ordinal
      has been reported exactly once: the reports are exactly the ordinals 1..count. */
  lemma {:induction false} EveryClaimEmittedOnce(env: Env, s: State)
    requires Inv(env, s) && !env.saving
    requires forall i: nat | i < |s.attempts| :: s.attempts[i].Done?
    ensures |s.output| == s.count
    ensures forall o | 1 <= o <= s.count :: o in Ordinals(s.output)
  {
    var os := Ordinals(s.output);
    OrdinalsDistinct(env, s);
    forall o | 1 <= o <= s.count ensures o in os {
      assert SlotOk(env, s, o - 1);
      match s.slots[o - 1]
      case Printed(j) => assert os[j] == o;
      case Pending(i) => assert false;
      case Dropped =>
    }
    DistinctCoverSize(os, s.count);
  }

  /** There are never more reports than claimed ordinals. */
  lemma ReportsAtMostClaims(env: Env, s: State)
    requires Inv(env, s)
    ensures |s.output| <= s.count
  {
    var os := Ordinals(s.output);
    OrdinalsDistinct(env, s);
    DistinctSetSize(os);
    var claimed := set x | x in os;
    assert claimed <= Range(s.count);
    SubsetSize(claimed, Range(s.count));
  }

  /** The outer loop of the search: rounds run while the counter is below the
      target; `plans` gives each round's interleaving, and the loop also stops
      when it runs out of plans. */
  method RunRounds(env: Env, plans: seq<RoundPlan>) returns (s: State, rounds: nat)
    requires forall k | 0 <= k < |plans| :: |plans[k].finish| == env.perRound
    ensures Inv(env, s) && s.attempts == []
    ensures rounds <= |plans| && s.tried == rounds * env.perRound
    ensures rounds < |plans| ==> s.count == env.maxAddresses
    ensures env.maxAddresses > 0 && |plans| > 0 ==> rounds > 0
    ensures !env.saving ==> |s.output| == s.count
    ensures |s.output| <= s.count
    ensures Distinct(Ordinals(s.output))
    ensures forall j | 0 <= j < |s.output| :: 1 <= s.output[j].ordinal <= s.count
    ensures forall j | 0 <= j < |s.output| :: env.accept(s.output[j].address)
  {
    s := Initial();
    rounds := 0;
    while s.count < env.maxAddresses && rounds < |plans|
      invariant Inv(env, s) && s.attempts == []
      invariant rounds <= |plans| && s.tried == rounds * env.perRound
      invariant !env.saving ==> |s.output| == s.count
      invariant env.maxAddresses > 0 && |plans| > 0 ==> rounds > 0 || s.count < env.maxAddresses
      decreases |plans| - rounds
    {
      s := Round(env, s, plans[rounds]);
      rounds := rounds + 1;
      if !env.saving {
        EveryClaimEmittedOnce(env, s);
      }
    }
    OrdinalsDistinct(env, s);
    ReportsAtMostClaims(env, s);
    forall j | 0 <= j < |s.output| ensures env.accept(s.output[j].address) {
      assert OutputOk(env, s, j);
    }
  }

  /** What a search that got past set-up guarantees: the counter stays within the
      target, `tried` counts every round, the loop stops early only at the target,
      and the reports carry distinct ordinals in 1..count, one per claim when keys
      are only printed and never more than the claims when they are saved. */
  predicate Finished(c: Config, plans: seq<RoundPlan>, s: State, rounds: nat) {
    && s.count <= c.maxAddresses
    && rounds <= |plans| && s.tried == rounds * c.addressesPerRound
    && (rounds < |plans| ==> s.count == c.maxAddresses)
    && (c.maxAddresses > 0 && |plans| > 0 ==> rounds > 0)
    && (c.savePath.None? ==> |s.output| == s.count)
    && |s.output| <= s.count
    && Distinct(Ordinals(s.output))
    && (forall j | 0 <= j < |s.output| :: 1 <= s.output[j].ordinal <= s.count)
  }

  /** `generate_vanity_addresses` as written: parse the patterns, then run rounds of
      attempts that test candidates with `matches_pattern`. */
  method GenerateAsWritten(e: RegexEngine, c: Config, plans: seq<RoundPlan>)
    returns (r: Result<State, SetupError>, rounds: nat)
    requires forall k | 0 <= k < |plans| :: |plans[k].finish| == c.addressesPerRound
    ensures r.Ok? <==> ParsePatterns(e, c).Ok?
    ensures r.Err? ==> r.error == ParsePatterns(e, c).error && rounds == 0
    ensures r.Ok? ==>
      var (starts, ends) := ParsePatterns(e, c).value;
      && Finished(c, plans, r.value, rounds)
      && forall j | 0 <= j < |r.value.output| :: Accepts(e, r.value.output[j].address, starts, ends)
  {
    var prepared := Prepare(e, c);
    if prepared.Err? {
      return Err(prepared.error), 0;
    }
    var s;
    s, rounds := RunRounds(prepared.value, plans);
    r := Ok(s);
  }

  /** `generate_vanity_addresses` with the corrected matcher of both findings. */
  method Generate(e: RegexEngine, c: Config, plans: seq<RoundPlan>)
    returns (r: Result<State, SetupError>, rounds: nat)
    requires forall k | 0 <= k < |plans| :: |plans[k].finish| == c.addressesPerRound
    ensures r.Ok? <==> ParsePatterns(e, c).Ok?
    ensures r.Err? ==> r.error == ParsePatterns(e, c).error && rounds == 0
    ensures r.Ok? ==>
      var (starts, ends) := ParsePatterns(e, c).value;
      && Finished(c, plans, r.value, rounds)
      && forall j | 0 <= j < |r.value.output| ::
           Intended.CorrectedAccepts(e, r.value.output[j].address, starts, ends)
  {
    var prepared := PrepareCorrected(e, c);
    if prepared.Err? {
      return Err(prepared.error), 0;
    }
    var s;
    s, rounds := RunRounds(prepared.value, plans);
    r := Ok(s);
  }

  /** What the command-line checks buy a finished search: at least one pattern
      constrains the candidates, a non-empty schedule runs at least one full round,
      and a search that stops before its schedule ends has found an address. */
  lemma CheckArgsMakeProgress(e: RegexEngine, c: Config, plans: seq<RoundPlan>, s: State, rounds: nat)
    requires CheckArgs(c).Ok? && ParsePatterns(e, c).Ok?
    requires Finished(c, plans, s, rounds)
    ensures var (starts, ends) := ParsePatterns(e, c).value; |Supplied(starts, ends)| >= 1
    ensures |plans| > 0 ==> rounds > 0 && s.tried >= c.addressesPerRound > 0
    ensures rounds < |plans| ==> s.count > 0
  {
    var (starts, ends) := ParsePatterns(e, c).value;
    assert c.startsWith.Some? ==> starts.Some?;
    assert c.endsWith.Some? ==> ends.Some?;
    if |plans| > 0 {
      AtLeastOneRound(rounds, c.addressesPerRound);
    }
  }

  lemma AtLeastOneRound(rounds: nat, perRound: nat)
    requires rounds > 0
    ensures rounds * perRound >= perRound
  {
    assert rounds * perRound == (rounds - 1) * perRound + perRound;
  }
}
