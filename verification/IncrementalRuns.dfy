/**
 * Incremental attestation over whole runs of the verifier. The agent's log grows, quotes lag behind it or are refused,
 * lists fail, the agent reboots and the verifier restarts; still every list the verifier accepts means what one
 * replay of the whole log against the same quote means.
 */
module IncrementalRuns {
  import opened Bytes
  import opened Crypto
  import opened AgentStates
  import opened Ima
  import opened Exceptions
  import opened HashChain
  import opened Persistence
  import opened TpmMain
  import opened CloudVerifierCommon
  import opened Incremental
  import opened Agreement
  import V = VerifierRuns

  /**
   * The agent's log and boot time now, and the verifier; `clean` and `rowClean` say how much of the log had been shown
   * when the state and the row were last accepted.
   */
  datatype World = World(log: seq<string>, boottime: int, verifier: V.World, clean: nat, rowClean: nat)

  /** An act of the verifier, where a response shows the log up to line `shown` and then blank lines; or a reboot. */
  datatype Step =
    | Verifier(act: V.Act, shown: nat, blanks: seq<string>)
    | Reboot(log: seq<string>, boottime: int)

  /** What the replay goes by is what is configured for the agent. */
  ghost predicate Fitting(cfg: Config, u: Setup) {
    u.env == cfg.env && u.policy == Some(cfg.policy) && u.tenant == cfg.tenant && V.OneHash(cfg, u.alg)
  }

  /** The list of the response was replayed and nothing was found. */
  ghost predicate Accepts(cfg: Config, u: Setup, w: V.World, r: Response) {
    var l := V.ListingOf(cfg, w, V.Respond(r));
    l.Some? && NothingFound(RoundOf(u.env, u.policy, u.alg, l.value))
  }

  /** The list of the response was replayed and failed. */
  ghost predicate Refuses(cfg: Config, u: Setup, w: V.World, r: Response) {
    var l := V.ListingOf(cfg, w, V.Respond(r));
    l.Some? && RoundOf(u.env, u.policy, u.alg, l.value).events != []
  }

  /** A line of the list raises, or the list replays cleanly, meets the quote and catches up. */
  ghost predicate Survives(u: Setup, l: Listing) {
    var c := StartOf(u.policy, u.alg, l);
    || RaisesBefore(u.env, u.policy, u.alg, c, l.lines, l.q, |l.lines|)
    || Succeeds(u.env, u.policy, u.alg, l.s, c, l.lines, l.q)
  }

  lemma SurvivesExactly(u: Setup, l: Listing)
    ensures RoundOf(u.env, u.policy, u.alg, l).events == [] <==> Survives(u, l)
  {
    NoFailureExactly(u.env, u.policy, u.alg, l.s, StartOf(u.policy, u.alg, l), l.lines, l.q);
  }

  /**
   * A cut of another boot goes on under the boot time of the response: its list is from a wrong entry, so its boot
   * time is noted, and no list is replayed or the list survives.
   */
  ghost predicate AdoptsOtherBoot(cfg: Config, u: Setup, w: V.World, r: Response) {
    && CheckEntry(w.state, r).WrongEntry? && w.state.boottime != 0 && w.state.boottime != r.boottime
    && NoteHeader(cfg, w.agent, r).1
    && var l := V.ListingOf(cfg, w, V.Respond(r));
       l.None? || Survives(u, l.value)
  }

  /** How much of the log the state that the list is replayed from was accepted with. */
  function CleanBefore(x: World, r: Response): nat {
    if CheckEntry(x.verifier.state, r).FromStart? then 0 else x.clean
  }

  /** The list is the log from the state's cut up to line `shown`, with blank lines at the end. */
  ghost predicate ShowsLog(log: seq<string>, l: Listing, clean: nat, shown: nat, blanks: seq<string>) {
    l.s.next <= shown <= |log| && clean <= shown && Blank(blanks) && l.lines == log[l.s.next..shown] + blanks
  }

  /** The response of an agent that shows its own boot time and its log; any other list fails, and none raises. */
  ghost predicate Honest(cfg: Config, u: Setup, x: World, r: Response, shown: nat, blanks: seq<string>) {
    var w, l := x.verifier, V.ListingOf(cfg, x.verifier, V.Respond(r));
    && r.boottime == x.boottime
    && !AdoptsOtherBoot(cfg, u, w, r)
    && (l.Some? ==>
          !RaisesBefore(u.env, u.policy, u.alg, StartOf(u.policy, u.alg, l.value), l.value.lines, l.value.q, |l.value.lines|))
    && (Accepts(cfg, u, w, r) ==> ShowsLog(x.log, l.value, CleanBefore(x, r), shown, blanks))
  }

  ghost function CleanAfter(cfg: Config, u: Setup, x: World, r: Response, shown: nat): nat {
    var w := x.verifier;
    if Accepts(cfg, u, w, r) then shown
    else if Refuses(cfg, u, w, r) || (NoteHeader(cfg, w.agent, r).1 && CheckEntry(w.state, r).OtherBoot?) then 0
    else if NoteHeader(cfg, w.agent, r).1 then CleanBefore(x, r)
    else x.clean
  }

  /** A restart loses no device: none are tracked, the row is of another boot, or none was in use where it is cut. */
  ghost predicate RowFits(u: Setup, x: World) {
    var row := x.verifier.row;
    || DmPolicies(u.policy).None?
    || row.boottime != x.boottime
    || (row.next <= |x.log| && Full(u, x.log, row.next).Cursor? && Full(u, x.log, row.next).dm == Some(map[]))
  }

  /** One step; None is a step the theorems do not speak of. A new boot has a boot time not on record. */
  ghost function Perform(cfg: Config, u: Setup, x: World, step: Step): Option<World> {
    match step
    case Reboot(log, boottime) =>
      if ProperLog(u, log) && boottime != 0 && x.verifier.state.boottime != boottime && x.verifier.row.boottime != boottime then
        Some(World(log, boottime, x.verifier, 0, 0))
      else None
    case Verifier(act, shown, blanks) =>
      var v := V.Perform(cfg, x.verifier, act);
      match act
      case Respond(r) =>
        if !Honest(cfg, u, x, r, shown, blanks) then None
        else
          var clean := CleanAfter(cfg, u, x, r, shown);
          Some(x.(verifier := v, clean := clean, rowClean := if ImaPcrValues(v.state) == map[] then x.rowClean else clean))
      case Restart =>
        if !RowFits(u, x) then None
        else Some(x.(verifier := v, clean := if x.verifier.row.boottime == 0 then 0 else x.rowClean))
      case Save => Some(x.(verifier := v))
      case Provide(randomness) => Some(x.(verifier := v))
      case Reactivate => Some(x.(verifier := v))
  }

  ghost function Run(cfg: Config, u: Setup, x: World, steps: seq<Step>): Option<World> {
    if steps == [] then Some(x)
    else
      var before := Run(cfg, u, x, steps[..|steps| - 1]);
      if before.None? then None else Perform(cfg, u, before.value, steps[|steps| - 1])
  }

  function ActsOf(steps: seq<Step>): seq<V.Act> {
    if steps == [] then []
    else ActsOf(steps[..|steps| - 1]) + if steps[|steps| - 1].Verifier? then [steps[|steps| - 1].act] else []
  }

  /** The verifier of a run is the verifier of `VerifierRuns`, given the same acts. */
  lemma {:induction false} RunIsVerifierRun(cfg: Config, u: Setup, x: World, steps: seq<Step>)
    requires Run(cfg, u, x, steps).Some?
    ensures Run(cfg, u, x, steps).value.verifier == V.Run(cfg, x.verifier, ActsOf(steps))
  {
    if steps != [] {
      var init, last := steps[..|steps| - 1], steps[|steps| - 1];
      RunIsVerifierRun(cfg, u, x, init);
      var acts := ActsOf(steps);
      if last.Verifier? {
        assert acts[..|acts| - 1] == ActsOf(init) && acts[|acts| - 1] == last.act;
      } else {
        assert acts == ActsOf(init);
      }
    }
  }

  function NewAgent(log: seq<string>, boottime: int): World {
    World(log, boottime, V.NEW_AGENT, 0, 0)
  }

  // The invariant

  /** A state as a reset leaves it. */
  ghost predicate Empty(alg: HashAlg, s: State) {
    && s.next == 0 && s.rings == [] && s.progress.None?
    && (IMA_PCR in s.pcrs ==> s.pcrs[IMA_PCR] == StartHash(alg))
  }

  /** A state without boot time is empty, one of this boot fits the log; one of another boot is reset by its next answer. */
  ghost predicate StateOk(u: Setup, x: World, clean: nat, s: State) {
    && Registered(u.alg, s)
    && (s.boottime == 0 ==> Empty(u.alg, s) && clean == 0)
    && (s.boottime == x.boottime ==> Inv(u, x.log, clean, s))
  }

  /** A row of this boot fits the log but for the devices. */
  ghost predicate RowOk(u: Setup, x: World, clean: nat, row: Stored) {
    row.boottime == x.boottime ==> InvCut(u, x.log, clean, Restored(u.env.crypto, row))
  }

  ghost predicate WorldInv(u: Setup, x: World) {
    && ProperLog(u, x.log) && x.boottime != 0
    && StateOk(u, x, x.clean, x.verifier.state)
    && RowOk(u, x, x.rowClean, x.verifier.row)
  }

  lemma ResetOk(u: Setup, x: World, s: State)
    requires Registered(u.alg, s) && x.boottime != 0
    ensures StateOk(u, x, 0, ResetIma(s))
  {
    ResetInv(u, x.log, s);
  }

  /** A failed round leaves the state reset. */
  lemma FailedRoundOk(u: Setup, x: World, l: Listing)
    requires Registered(u.alg, l.s) && x.boottime != 0
    requires RoundOf(u.env, u.policy, u.alg, l).events != []
    ensures StateOk(u, x, 0, RoundOf(u.env, u.policy, u.alg, l).state)
  {
    var loop := LoopTo(u.env, u.policy, u.alg, l.s, l.lines, l.q, |l.lines|);
    LoopRegistered(u.env, u.policy, u.alg, l.s, l.lines, l.q, |l.lines|);
    ResetOk(u, x, Judge(loop).state);
  }

  /** The list is not replayed on a cut of another boot. */
  predicate OfThisBoot(x: World, r: Response) {
    var s := x.verifier.state;
    CheckEntry(s, r).FromStart? || s.boottime == 0 || s.boottime == x.boottime
  }

  /** The state a list is replayed from fits the log, unless it is of another boot. */
  lemma PreparedInv(cfg: Config, u: Setup, x: World, r: Response)
    requires Fitting(cfg, u) && Sound(u) && WorldInv(u, x) && r.boottime == x.boottime
    requires OfThisBoot(x, r)
    ensures Inv(u, x.log, CleanBefore(x, r), Prepared(cfg, x.verifier.agent, x.verifier.state, r))
  {
    var a, s := x.verifier.agent, x.verifier.state;
    var base := if CheckEntry(s, r).FromStart? then ResetIma(s) else s;
    if CheckEntry(s, r).FromStart? {
      ResetInv(u, x.log, s);
    } else if s.boottime == 0 {
      EmptyLogInv(u, x.log, s);
    }
    RenewedInv(u, x.log, CleanBefore(x, r), base, r.boottime, if a.clock.Some? then a.clock.value else base.clock);
  }

  lemma TimedInv(u: Setup, log: seq<string>, clean: nat, s: State, q: Quote)
    requires Inv(u, log, clean, s)
    ensures Inv(u, log, clean, AfterTiming(s, q))
  {
  }

  /** A response whose list is not refused is replayed from a state that fits, or leaves the state where it is. */
  lemma NotOfAnotherBoot(cfg: Config, u: Setup, x: World, r: Response, shown: nat, blanks: seq<string>)
    requires Honest(cfg, u, x, r, shown, blanks) && ReachesQuote(cfg, x.verifier.agent, x.verifier.state, r)
    requires !Refuses(cfg, u, x.verifier, r)
    ensures OfThisBoot(x, r)
  {
    var l := V.ListingOf(cfg, x.verifier, V.Respond(r));
    if l.Some? {
      SurvivesExactly(u, l.value);
    }
  }

  /** An accepted list: the new state fits the log as far as it was shown, and has the quoted PCR. */
  lemma AcceptedInv(cfg: Config, u: Setup, x: World, r: Response, shown: nat, blanks: seq<string>, l: Listing, s': State)
    requires Fitting(cfg, u) && Sound(u) && WorldInv(u, x) && Honest(cfg, u, x, r, shown, blanks) && Accepts(cfg, u, x.verifier, r)
    requires V.ListingOf(cfg, x.verifier, V.Respond(r)) == Some(l)
    requires s' == StateAfterResponse(cfg, x.verifier.agent, x.verifier.state, r)
    ensures Inv(u, x.log, shown, s') && RoundOutcome(u, CleanBefore(x, r), l.s, shown, l.q, s')
    ensures s'.boottime == x.boottime && s' == RoundOf(u.env, u.policy, u.alg, l).state
  {
    NotOfAnotherBoot(cfg, u, x, r, shown, blanks);
    PreparedInv(cfg, u, x, r);
    V.ResponseRound(cfg, u.alg, x.verifier, r);
    TimedInv(u, x.log, CleanBefore(x, r), Prepared(cfg, x.verifier.agent, x.verifier.state, r), r.quote.value);
    var s := RoundInv(u, x.log, CleanBefore(x, r), l.s, shown, blanks, l.q);
  }

  /** What a response leaves when no list was replayed. */
  lemma WithoutList(cfg: Config, w: V.World, r: Response)
    requires V.ListingOf(cfg, w, V.Respond(r)).None?
    ensures var s', noted := StateAfterResponse(cfg, w.agent, w.state, r), NoteHeader(cfg, w.agent, r).1;
            && (!noted ==> s' == w.state)
            && (noted && CheckEntry(w.state, r).OtherBoot? ==> s' == ResetIma(w.state))
            && (ReachesQuote(cfg, w.agent, w.state, r) ==>
                  s' == Prepared(cfg, w.agent, w.state, r) || s' == AfterTiming(Prepared(cfg, w.agent, w.state, r), r.quote.value))
  {
  }

  lemma UnlistedOk(cfg: Config, u: Setup, x: World, r: Response, shown: nat, blanks: seq<string>, s': State)
    requires Fitting(cfg, u) && Sound(u) && WorldInv(u, x) && Honest(cfg, u, x, r, shown, blanks)
    requires V.ListingOf(cfg, x.verifier, V.Respond(r)).None?
    requires s' == StateAfterResponse(cfg, x.verifier.agent, x.verifier.state, r)
    ensures StateOk(u, x, CleanAfter(cfg, u, x, r, shown), s')
  {
    var a, s := x.verifier.agent, x.verifier.state;
    WithoutList(cfg, x.verifier, r);
    if ReachesQuote(cfg, a, s, r) {
      NotOfAnotherBoot(cfg, u, x, r, shown, blanks);
      PreparedInv(cfg, u, x, r);
      TimedInv(u, x.log, CleanBefore(x, r), Prepared(cfg, a, s, r), r.quote.value);
    } else if NoteHeader(cfg, a, r).1 {
      ResetOk(u, x, s);
    }
  }

  /** The state after any response of an honest agent. */
  lemma RespondOk(cfg: Config, u: Setup, x: World, r: Response, shown: nat, blanks: seq<string>, l: Option<Listing>,
                  s': State)
    requires Fitting(cfg, u) && Sound(u) && WorldInv(u, x) && Honest(cfg, u, x, r, shown, blanks)
    requires l == V.ListingOf(cfg, x.verifier, V.Respond(r))
    requires s' == StateAfterResponse(cfg, x.verifier.agent, x.verifier.state, r)
    ensures StateOk(u, x, CleanAfter(cfg, u, x, r, shown), s')
    ensures !Escapes(cfg, x.verifier.agent, x.verifier.state, r)
  {
    V.ResponseRound(cfg, u.alg, x.verifier, r);
    if l.None? {
      UnlistedOk(cfg, u, x, r, shown, blanks, s');
    } else {
      RoundRaisesExactly(u.env, u.policy, u.alg, l.value.s, StartOf(u.policy, u.alg, l.value), l.value.lines, l.value.q);
      if Accepts(cfg, u, x.verifier, r) {
        AcceptedInv(cfg, u, x, r, shown, blanks, l.value, s');
      } else {
        PreparedRegistered(cfg, u, x, r);
        FailedRoundOk(u, x, l.value);
      }
    }
  }

  lemma PreparedRegistered(cfg: Config, u: Setup, x: World, r: Response)
    requires WorldInv(u, x)
    ensures Registered(u.alg, Prepared(cfg, x.verifier.agent, x.verifier.state, r))
    ensures r.quote.Some? ==> Registered(u.alg, AfterTiming(Prepared(cfg, x.verifier.agent, x.verifier.state, r), r.quote.value))
  {
  }

  // The row

  lemma StoredOk(u: Setup, x: World, clean: nat, s: State)
    requires Sound(u) && WorldInv(u, x) && StateOk(u, x, clean, s)
    ensures RowOk(u, x, if ImaPcrValues(s) == map[] then x.rowClean else clean, Store(u.env.crypto, x.verifier.row, s))
  {
    if ImaPcrValues(s) != map[] && s.boottime == x.boottime {
      StoredInv(u, x.log, clean, x.verifier.row, s);
    }
  }

  lemma RestartOk(u: Setup, x: World)
    requires Sound(u) && WorldInv(u, x) && RowFits(u, x)
    ensures StateOk(u, x, if x.verifier.row.boottime == 0 then 0 else x.rowClean, Reload(u.env.crypto, x.verifier.row))
  {
  }

  lemma PerformInv(cfg: Config, u: Setup, x: World, step: Step)
    requires Fitting(cfg, u) && Sound(u) && WorldInv(u, x) && Perform(cfg, u, x, step).Some?
    ensures WorldInv(u, Perform(cfg, u, x, step).value)
  {
    match step
    case Reboot(log, boottime) =>
    case Verifier(act, shown, blanks) =>
      match act
      case Respond(r) =>
        var s' := StateAfterResponse(cfg, x.verifier.agent, x.verifier.state, r);
        RespondOk(cfg, u, x, r, shown, blanks, V.ListingOf(cfg, x.verifier, act), s');
        StoredOk(u, x, CleanAfter(cfg, u, x, r, shown), s');
      case Restart => RestartOk(u, x);
      case _ =>
  }

  lemma NewAgentInv(u: Setup, log: seq<string>, boottime: int)
    requires ProperLog(u, log) && boottime != 0
    ensures WorldInv(u, NewAgent(log, boottime))
  {
  }

  // Main theorems

  /** Every step of agent and verifier keeps state and row cuts of the full replay of the agent's log, or of another boot. */
  lemma {:induction false} RunInv(cfg: Config, u: Setup, x: World, steps: seq<Step>)
    requires Fitting(cfg, u) && Sound(u) && WorldInv(u, x) && Run(cfg, u, x, steps).Some?
    ensures WorldInv(u, Run(cfg, u, x, steps).value)
  {
    if steps != [] {
      RunInv(cfg, u, x, steps[..|steps| - 1]);
      PerformInv(cfg, u, Run(cfg, u, x, steps[..|steps| - 1]).value, steps[|steps| - 1]);
    }
  }

  /** The list was accepted, or the response was checked in full, without failure, and quotes the IMA PCR. */
  ghost predicate Passes(cfg: Config, u: Setup, w: V.World, r: Response) {
    || Accepts(cfg, u, w, r)
    || (FullyAccepted(cfg, w.agent, w.state, r) && IMA_PCR in r.quote.value.pcrs.value)
  }

  lemma PassesAccepts(cfg: Config, u: Setup, w: V.World, r: Response)
    requires Fitting(cfg, u) && Passes(cfg, u, w, r)
    ensures Accepts(cfg, u, w, r)
  {
    V.ResponseRound(cfg, u.alg, w, r);
  }

  /**
   * After any run from a new agent, if the verifier accepts a list or a whole response, one full replay of the shown log from a fresh
   * state against the same quote accepts too, and leaves the same PCR. It is never cut later; it is cut at the same
   * line with the same devices, unless the log itself shows two inputs of the hash that clash or lead back to its start.
   */
  lemma IncrementalRefinesFull(cfg: Config, u: Setup, log: seq<string>, boottime: int, steps: seq<Step>, x: World,
                               r: Response, shown: nat, blanks: seq<string>)
    requires Fitting(cfg, u) && Sound(u) && HashHasSize(u.env.crypto, u.alg) && ProperLog(u, log) && boottime != 0
    requires Run(cfg, u, NewAgent(log, boottime), steps) == Some(x)
    requires Honest(cfg, u, x, r, shown, blanks) && Passes(cfg, u, x.verifier, r)
    ensures x.verifier == V.Run(cfg, V.NEW_AGENT, ActsOf(steps)) && shown <= |x.log|
    ensures var l := V.ListingOf(cfg, x.verifier, V.Respond(r));
            l.Some? && AgreesWithFull(u, x.log, shown, StateAfterResponse(cfg, x.verifier.agent, x.verifier.state, r),
                                      l.value.q, FullReplay(u, x.log, shown, l.value.q))
  {
    PassesAccepts(cfg, u, x.verifier, r);
    NewAgentInv(u, log, boottime);
    RunInv(cfg, u, NewAgent(log, boottime), steps);
    RunIsVerifierRun(cfg, u, NewAgent(log, boottime), steps);
    var l := V.ListingOf(cfg, x.verifier, V.Respond(r)).value;
    var s' := StateAfterResponse(cfg, x.verifier.agent, x.verifier.state, r);
    AcceptedInv(cfg, u, x, r, shown, blanks, l, s');
    CutAgainstFull(u, x.log, shown, shown, s', l.q, FullReplay(u, x.log, shown, l.q));
  }

  /** The list is the agent's log, replayed from a state that knows what was taught into the tenant's ring. */
  ghost predicate ShowsAll(cfg: Config, u: Setup, x: World, r: Response, shown: nat, blanks: seq<string>, l: Listing) {
    && r.boottime == x.boottime && OfThisBoot(x, r)
    && V.ListingOf(cfg, x.verifier, V.Respond(r)) == Some(l)
    && ShowsLog(x.log, l, CleanBefore(x, r), shown, blanks)
    && l.s.next <= |x.log| && KnowsTenantLessons(u, x.log, l.s.next, l.s.rings)
  }

  /** A state that fits the log is replayed from with the keys the full replay has at its cut. */
  lemma ListingInformed(cfg: Config, u: Setup, x: World, r: Response, shown: nat, blanks: seq<string>, l: Listing)
    requires Fitting(cfg, u) && Sound(u) && WorldInv(u, x) && ShowsAll(cfg, u, x, r, shown, blanks, l)
    ensures Inv(u, x.log, CleanBefore(x, r), l.s) && Informed(u, x.log, l.s)
  {
    var s := x.verifier.state;
    var base := if CheckEntry(s, r).FromStart? then ResetIma(s) else s;
    V.ResponseRound(cfg, u.alg, x.verifier, r);
    PreparedInv(cfg, u, x, r);
    TimedInv(u, x.log, CleanBefore(x, r), Prepared(cfg, x.verifier.agent, s, r), r.quote.value);
    FullPrefixClean(u, x.log, l.s.next, CleanBefore(x, r));
    BaseLearned(u, x, r, base);
    RenewedCovers(u, x.log, l.s.next, base.rings, l.s.rings);
  }

  lemma BaseLearned(u: Setup, x: World, r: Response, base: State)
    requires WorldInv(u, x) && OfThisBoot(x, r)
    requires base == if CheckEntry(x.verifier.state, r).FromStart? then ResetIma(x.verifier.state) else x.verifier.state
    ensures base.next <= |x.log| && KeysOk(u, base.rings) && KnowsLessons(u, x.log, base.next, base.rings)
  {
  }

  /** Over one response: its list is accepted exactly when the full replay is, and its quote covers what it must. */
  lemma AcceptsExactly(cfg: Config, u: Setup, x: World, r: Response, shown: nat, blanks: seq<string>, l: Listing)
    requires Fitting(cfg, u) && Sound(u) && WorldInv(u, x) && ShowsAll(cfg, u, x, r, shown, blanks, l)
    ensures Accepts(cfg, u, x.verifier, r) <==>
              NothingFound(FullReplay(u, x.log, shown, l.q)) && QuoteCovers(u, x.log, CleanBefore(x, r), l.s, shown, l.q)
  {
    ListingInformed(cfg, u, x, r, shown, blanks, l);
    RoundAgreesWithFull(u, x.log, CleanBefore(x, r), l.s, shown, blanks, l.q);
  }

  /**
   * After any run from a new agent, a list that is the agent's log is accepted exactly when one full replay of the
   * shown log against the same quote is accepted, the quote stands at a line from the cut on, and, once there has been
   * progress, the first such line is no earlier than the last one shown before.
   */
  lemma IncrementalEqualsFull(cfg: Config, u: Setup, log: seq<string>, boottime: int, steps: seq<Step>, x: World,
                              r: Response, shown: nat, blanks: seq<string>, l: Listing)
    requires Fitting(cfg, u) && Sound(u) && ProperLog(u, log) && boottime != 0
    requires Run(cfg, u, NewAgent(log, boottime), steps) == Some(x) && ShowsAll(cfg, u, x, r, shown, blanks, l)
    ensures Accepts(cfg, u, x.verifier, r) <==>
              NothingFound(FullReplay(u, x.log, shown, l.q)) && QuoteCovers(u, x.log, CleanBefore(x, r), l.s, shown, l.q)
  {
    NewAgentInv(u, log, boottime);
    RunInv(cfg, u, NewAgent(log, boottime), steps);
    AcceptsExactly(cfg, u, x, r, shown, blanks, l);
  }

  /** From a state that has made progress, an accepted quote covers every line that was shown before. */
  lemma QuoteCoversShown(cfg: Config, u: Setup, x: World, r: Response, shown: nat, blanks: seq<string>)
    requires Fitting(cfg, u) && Sound(u) && WorldInv(u, x) && Honest(cfg, u, x, r, shown, blanks) && Accepts(cfg, u, x.verifier, r)
    requires !CheckEntry(x.verifier.state, r).FromStart? && x.verifier.state.progress.Some?
    ensures StateAfterResponse(cfg, x.verifier.agent, x.verifier.state, r).next >= x.clean
  {
    var l := V.ListingOf(cfg, x.verifier, V.Respond(r)).value;
    V.ResponseRound(cfg, u.alg, x.verifier, r);
    AcceptedInv(cfg, u, x, r, shown, blanks, l, StateAfterResponse(cfg, x.verifier.agent, x.verifier.state, r));
  }

  /**
   * Whatever the run before, when an accepted list is followed by another from its cut that is accepted, the second
   * quote covers every line the first list showed.
   */
  lemma NextQuoteCoversShownLines(cfg: Config, u: Setup, log: seq<string>, boottime: int, steps: seq<Step>, x: World,
                                  y: World, first: Step, r: Response, shown: nat, blanks: seq<string>)
    requires Fitting(cfg, u) && Sound(u) && ProperLog(u, log) && boottime != 0
    requires Run(cfg, u, NewAgent(log, boottime), steps) == Some(x)
    requires first.Verifier? && first.act.Respond? && Accepts(cfg, u, x.verifier, first.act.response)
    requires Perform(cfg, u, x, first) == Some(y)
    requires Honest(cfg, u, y, r, shown, blanks) && Accepts(cfg, u, y.verifier, r) && !CheckEntry(y.verifier.state, r).FromStart?
    ensures StateAfterResponse(cfg, y.verifier.agent, y.verifier.state, r).next >= first.shown
  {
    NewAgentInv(u, log, boottime);
    RunInv(cfg, u, NewAgent(log, boottime), steps);
    var l := V.ListingOf(cfg, x.verifier, first.act).value;
    AcceptedInv(cfg, u, x, first.act.response, first.shown, first.blanks, l, y.verifier.state);
    PerformInv(cfg, u, x, first);
    QuoteCoversShown(cfg, u, y, r, shown, blanks);
  }

  /**
   * The lag rule over runs: when an accepted list is followed by another from its cut, the second is accepted exactly
   * when the full replay is and its quote, looked for from the cut on, stands behind every line the first list showed.
   */
  lemma NextQuoteExactly(cfg: Config, u: Setup, log: seq<string>, boottime: int, steps: seq<Step>, x: World, y: World,
                         first: Step, r: Response, shown: nat, blanks: seq<string>, l: Listing)
    requires Fitting(cfg, u) && Sound(u) && ProperLog(u, log) && boottime != 0
    requires Run(cfg, u, NewAgent(log, boottime), steps) == Some(x)
    requires first.Verifier? && first.act.Respond? && Accepts(cfg, u, x.verifier, first.act.response)
    requires Perform(cfg, u, x, first) == Some(y)
    requires ShowsAll(cfg, u, y, r, shown, blanks, l) && !CheckEntry(y.verifier.state, r).FromStart?
    ensures Accepts(cfg, u, y.verifier, r) <==>
              && NothingFound(FullReplay(u, y.log, shown, l.q))
              && exists cut: nat :: FirstFrom(u, y.log, y.verifier.state.next, shown, cut, l.q) && first.shown <= cut
  {
    NewAgentInv(u, log, boottime);
    RunInv(cfg, u, NewAgent(log, boottime), steps);
    var before := V.ListingOf(cfg, x.verifier, first.act).value;
    AcceptedInv(cfg, u, x, first.act.response, first.shown, first.blanks, before, y.verifier.state);
    PerformInv(cfg, u, x, first);
    AcceptsExactly(cfg, u, y, r, shown, blanks, l);
    V.ResponseRound(cfg, u.alg, y.verifier, r);
  }

  // A cut that outlives its boot

  lemma {:induction false} LoopKeepsBoot(env: Env, policy: Option<RuntimePolicy>, alg: HashAlg, s: State,
                                         lines: seq<string>, q: Bytes, n: nat)
    requires n <= |lines|
    ensures var l := LoopTo(env, policy, alg, s, lines, q, n).state; l.boottime == s.boottime && l.next >= s.next
  {
    if n > 0 {
      LoopKeepsBoot(env, policy, alg, s, lines, q, n - 1);
    }
  }

  /** A round that does not fail keeps the boot time and loses no line; one that fails forgets both. */
  lemma KeptOrReset(env: Env, policy: Option<RuntimePolicy>, alg: HashAlg, l: Listing)
    ensures var r := RoundOf(env, policy, alg, l);
            if r.events == [] then r.state.boottime == l.s.boottime && r.state.next >= l.s.next
            else r.state.boottime == 0 && r.state.next == 0
  {
    LoopKeepsBoot(env, policy, alg, l.s, l.lines, l.q, |l.lines|);
  }

  /**
   * A response of another boot that is not from entry 0 leaves the old cut in place under the new boot time exactly
   * when its list is from a wrong entry and is not replayed, raises or survives: the boot time is noted before the
   * list is judged.
   */
  lemma OtherBootAdoptedExactly(cfg: Config, u: Setup, w: V.World, r: Response)
    requires Fitting(cfg, u) && w.state.boottime != 0 && w.state.next != 0
    requires r.boottime != w.state.boottime && r.boottime != 0 && r.imaEntry != 0
    ensures var s' := StateAfterResponse(cfg, w.agent, w.state, r);
            s'.next >= w.state.next && s'.boottime == r.boottime <==> AdoptsOtherBoot(cfg, u, w, r)
  {
    V.ResponseRound(cfg, u.alg, w, r);
    if V.ListingOf(cfg, w, V.Respond(r)).None? {
      WithoutList(cfg, w, r);
    } else {
      KeptOrReset(u.env, u.policy, u.alg, V.ListingOf(cfg, w, V.Respond(r)).value);
      SurvivesExactly(u, V.ListingOf(cfg, w, V.Respond(r)).value);
    }
  }
}
