/** Whole runs of the polling machine: replies, requests of the tenant, restarts, and failures of other agents. */
module PollingRuns {
  import opened Bytes
  import opened Polling
  import F = Failures

  datatype Act =
    | Answer(reply: Reply)
    | Post | Reactivate            // polling starts, if the agent is not polled already
    | Delete | Stop                // the tenant writes to the database only
    | Restart                      // of the verifier
    | Elsewhere(id: string)        // another agent's failure reaches the shared default

  function Begin(cfg: PollConfig, p: Poll): Poll
    requires HasLabels(cfg) && Named(p.shared)
  {
    Continued(cfg, p.(state := Start, retries := 0, severity := None, lastEvent := "", pending := Nothing), GetQuote, p.shared)
  }

  predicate Approved(state: OpState) {
    state.Start? || state.GetQuote? || state.GetQuoteRetry? || state.ProvideV? || state.ProvideVRetry?
  }

  predicate Deletable(state: OpState) {
    state.Saved? || state.Failed? || state.Terminated? || state.TenantFailed? || state.InvalidQuote?
  }

  function Restarted(cfg: PollConfig, p: Poll): Poll
    requires HasLabels(cfg)
  {
    var row := if p.row.Some? && Approved(p.row.value) then Some(Start) else p.row;
    var q := p.(row := row, pending := Nothing, shared := F.NO_FAILURE);
    if row == Some(Start) then Begin(cfg, q) else q
  }

  function Perform(cfg: PollConfig, p: Poll, a: Act): Poll
    requires HasLabels(cfg) && Named(p.shared)
  {
    match a
    case Answer(reply) => if p.pending.Nothing? then p else AfterReply(cfg, p, reply)
    case Post => if p.row.Some? || !p.pending.Nothing? then p else Begin(cfg, p.(row := Some(Start)))
    case Reactivate => if p.row.None? || !p.pending.Nothing? then p else Begin(cfg, p)
    case Delete =>
      if p.row.None? then p else p.(row := if Deletable(p.row.value) then None else Some(Terminated))
    case Stop => if p.row.None? then p else p.(row := Some(TenantFailed))
    case Restart => Restarted(cfg, p)
    case Elsewhere(id) => p.(shared := F.AddEvent(Top(cfg), p.shared, Irrecoverable(cfg, id)))
  }

  const UNKNOWN := Poll(Registered, 0, None, "", None, Nothing, F.NO_FAILURE)

  /** Events carry the severity the configuration gives them. */
  ghost predicate Configured(cfg: PollConfig, r: Reply)
    requires HasLabels(cfg)
  {
    r.events.Some? ==> forall e | e in r.events.value :: e.severity == F.SeverityMatch(cfg.labels, cfg.rules, e.id)
  }

  // What every reachable state keeps

  predicate SharedOk(cfg: PollConfig, v: F.Verdict)
    requires HasLabels(cfg)
  {
    v == F.NO_FAILURE || (v.highest == Some(Top(cfg)) && v.highestEvent.Some? && !v.recoverable)
  }

  predicate Retries(cfg: PollConfig, p: Poll) {
    p.retries == 0 || 0 < p.retries <= cfg.maxRetries
  }

  /** Being polled: untroubled, or after a recoverable failure below the top severity. */
  predicate Polled(cfg: PollConfig, p: Poll)
    requires HasLabels(cfg)
  {
    && (p.pending.Key? ==> p.state.ProvideV?)
    && (p.pending.Quote? ==> p.state.GetQuote? || p.state.InvalidQuote?)
    && (p.state.InvalidQuote? ==> p.severity.Some? && p.severity.value < Top(cfg))
    && (!p.state.InvalidQuote? ==> p.severity.None?)
    && (Live(p) ==> if p.state.InvalidQuote? then p.row == Some(InvalidQuote) else Approved(p.row.value))
  }

  predicate Inv(cfg: PollConfig, p: Poll)
    requires HasLabels(cfg)
  {
    && SharedOk(cfg, p.shared) && Retries(cfg, p)
    && (if p.pending.Nothing? then p.row.None? || !Approved(p.row.value) else Polled(cfg, p))
  }

  function Run(cfg: PollConfig, acts: seq<Act>): (p: Poll)
    requires HasLabels(cfg)
    ensures Named(p.shared)
  {
    if acts == [] then UNKNOWN else Perform(cfg, Run(cfg, acts[..|acts| - 1]), acts[|acts| - 1])
  }

  lemma GiveUpStops(cfg: PollConfig, p: Poll, id: string)
    requires HasLabels(cfg) && SharedOk(cfg, p.shared) && Live(p)
    requires p.severity.None? || p.severity.value < Top(cfg)
    ensures var q := GiveUp(cfg, p, id);
            && q.pending.Nothing? && q.state.Failed? && q.row == Some(Failed) && q.retries == p.retries
            && q.severity == Some(Top(cfg)) && SharedOk(cfg, q.shared)
            && q.shared.events == p.shared.events + [F.Raised(Top(cfg), Irrecoverable(cfg, id))]
            && q.lastEvent == if p.shared == F.NO_FAILURE then id else p.shared.highestEvent.value.id
  {
  }

  /** The verdict on a quote is no graver than the top label, and one that stopped early has it. */
  lemma VerdictBounded(cfg: PollConfig, es: seq<F.Event>)
    requires HasLabels(cfg) && es != []
    requires forall e | e in es :: e.severity == F.SeverityMatch(cfg.labels, cfg.rules, e.id)
    ensures var v := F.FromEvents(Top(cfg), es);
            && v.highest.Some? && v.highestEvent.Some? && v.highest.value <= Top(cfg)
            && (Final(cfg, v) <==> v.highest == Some(Top(cfg)))
  {
    var max, v := Top(cfg), F.FromEvents(Top(cfg), es);
    F.FromEventsMeaning(max, es);
    forall i | 0 <= i < |es| ensures es[i].severity <= max {
      F.SeverityBounded(cfg.labels, cfg.rules, es[i].id);
    }
    if !v.recoverable {
      var k: nat :| k < |es| && !es[k].recoverable;
      F.FlatIrrecoverableIsTop(max, es, k);
    }
    var i: nat :| F.FirstHighest(v.events, i) && v.highest == Some(v.events[i].severity);
    assert v.events[i] == F.Raised(max, es[i]);
  }

  /** The record as the continuation of a reply finds it. */
  function Replied(p: Poll, r: Reply): Poll {
    p.(pending := Nothing, row := if Overwrites(r) && p.row.Some? then Some(p.state) else p.row)
  }

  /** The in-memory part of `Polled`, which outlives the request. */
  predicate Untroubled(cfg: PollConfig, p: Poll)
    requires HasLabels(cfg)
  {
    && SharedOk(cfg, p.shared) && Retries(cfg, p) && (p.row.Some? && !Live(p) ==> !Approved(p.row.value))
    && (p.state.Start? || p.state.GetQuote? || p.state.ProvideV? || p.state.InvalidQuote?)
    && (p.state.InvalidQuote? ==> p.severity.Some? && p.severity.value < Top(cfg))
    && (!p.state.InvalidQuote? ==> p.severity.None?)
  }

  lemma ReportKeepsInv(cfg: PollConfig, p: Poll, requested: OpState, f: F.Verdict)
    requires HasLabels(cfg) && Untroubled(cfg, p) && Reports(requested) && f.highestEvent.Some?
    requires f.highest.Some? && f.highest.value <= Top(cfg) && (Final(cfg, f) <==> f.highest == Some(Top(cfg)))
    requires requested.Failed? ==> Final(cfg, f)
    ensures Inv(cfg, Continued(cfg, p, requested, f))
  {
  }

  lemma GiveUpKeepsInv(cfg: PollConfig, p: Poll, id: string)
    requires HasLabels(cfg) && Untroubled(cfg, p) && Live(p)
    ensures Inv(cfg, GiveUp(cfg, p, id))
  {
    GiveUpStops(cfg, p, id);
  }

  lemma RetryKeepsInv(cfg: PollConfig, p: Poll, requested: OpState)
    requires HasLabels(cfg) && Untroubled(cfg, p) && Live(p) && !FallsOut(p.state, requested)
    requires requested.GetQuoteRetry? || requested.ProvideVRetry?
    ensures Inv(cfg, Continued(cfg, p, requested, p.shared))
  {
    var id := if requested.GetQuoteRetry? then NOT_REACHABLE else NOT_REACHABLE_V;
    GiveUpKeepsInv(cfg, p.(row := Some(p.state)), id);
  }

  lemma ContinuedKeepsInv(cfg: PollConfig, p: Poll, requested: OpState)
    requires HasLabels(cfg) && Untroubled(cfg, p) && !Reports(requested)
    ensures Inv(cfg, Continued(cfg, p, requested, p.shared))
  {
    if Live(p) {
      if FallsOut(p.state, requested) {
        GiveUpKeepsInv(cfg, p.(row := Some(p.state)), EXCEPTION);
      } else if requested.GetQuoteRetry? || requested.ProvideVRetry? {
        RetryKeepsInv(cfg, p, requested);
      }
    }
  }

  lemma ReplyKeepsInv(cfg: PollConfig, p: Poll, r: Reply)
    requires HasLabels(cfg) && Inv(cfg, p) && !p.pending.Nothing? && Configured(cfg, r)
    ensures Inv(cfg, AfterReply(cfg, p, r))
  {
    var q := Requested(cfg, p.pending, r);
    if q.0.InvalidQuote? {
      VerdictBounded(cfg, r.events.value);
    }
    if Reports(q.0) {
      ReportKeepsInv(cfg, Replied(p, r), q.0, q.1);
    } else {
      ContinuedKeepsInv(cfg, Replied(p, r), q.0);
    }
  }

  lemma BeginKeepsInv(cfg: PollConfig, p: Poll)
    requires HasLabels(cfg) && SharedOk(cfg, p.shared) && p.row.Some?
    ensures Inv(cfg, Begin(cfg, p))
  {
    ContinuedKeepsInv(cfg, p.(state := Start, retries := 0, severity := None, lastEvent := "", pending := Nothing), GetQuote);
  }

  lemma PerformKeepsInv(cfg: PollConfig, p: Poll, a: Act)
    requires HasLabels(cfg) && Inv(cfg, p) && (a.Answer? ==> Configured(cfg, a.reply))
    ensures Inv(cfg, Perform(cfg, p, a))
  {
    match a
    case Answer(reply) => if !p.pending.Nothing? { ReplyKeepsInv(cfg, p, reply); }
    case Post => BeginKeepsInv(cfg, p.(row := Some(Start)));
    case Reactivate => if p.row.Some? { BeginKeepsInv(cfg, p); }
    case Restart => BeginKeepsInv(cfg, p.(row := Some(Start), pending := Nothing, shared := F.NO_FAILURE));
    case Delete =>
    case Stop =>
    case Elsewhere(id) =>
  }

  /**
   * In every reachable state retries stay within the limit, a polled agent is untroubled or failed recoverably
   * below the top severity, and the database column tells the two apart.
   */
  lemma {:induction false} ReachableInv(cfg: PollConfig, acts: seq<Act>)
    requires HasLabels(cfg)
    requires forall a | a in acts :: a.Answer? ==> Configured(cfg, a.reply)
    ensures Inv(cfg, Run(cfg, acts))
  {
    if acts != [] {
      var init, last := acts[..|acts| - 1], acts[|acts| - 1];
      assert forall a | a in init :: a in acts;
      ReachableInv(cfg, init);
      PerformKeepsInv(cfg, Run(cfg, init), last);
    }
  }

  // Falling out of the branches

  /** An exception was added to the default failure in between. */
  ghost predicate NewlyRaised(before: Poll, after: Poll) {
    AddsException(before.shared.events, after.shared.events)
  }

  predicate AddsException(before: seq<F.Event>, after: seq<F.Event>) {
    after != [] && after[..|after| - 1] == before && after[|after| - 1].id == EXCEPTION
  }

  /** Checking the quote found something, all of it recoverable and below the top severity. */
  ghost predicate MildFailure(cfg: PollConfig, r: Reply)
    requires HasLabels(cfg)
  {
    && r.code == 200 && r.events.Some? && r.events.value != []
    && forall e | e in r.events.value :: e.recoverable && e.severity < Top(cfg)
  }

  lemma MildIsNotFinal(cfg: PollConfig, es: seq<F.Event>)
    requires HasLabels(cfg) && es != []
    requires forall e | e in es :: e.severity == F.SeverityMatch(cfg.labels, cfg.rules, e.id)
    ensures Final(cfg, F.FromEvents(Top(cfg), es)) <==> exists e | e in es :: !e.recoverable || e.severity == Top(cfg)
  {
    var max, v := Top(cfg), F.FromEvents(Top(cfg), es);
    VerdictBounded(cfg, es);
    F.FromEventsMeaning(max, es);
    forall i | 0 <= i < |es| ensures es[i].severity <= max {
      F.SeverityBounded(cfg.labels, cfg.rules, es[i].id);
    }
    var i: nat :| F.FirstHighest(v.events, i) && v.highest == Some(v.events[i].severity);
    assert v.events[i] == F.Raised(max, es[i]) && es[i] in es;
    if e :| e in es && (!e.recoverable || e.severity == Top(cfg)) {
      var k: nat :| k < |es| && es[k] == e;
      assert v.events[k] == F.Raised(max, e);
    }
  }

  lemma OneMore(before: seq<F.Event>, e: F.Event)
    ensures AddsException(before, before + [e]) <==> e.id == EXCEPTION
    ensures !AddsException(before, before)
  {
    assert (before + [e])[..|before|] == before;
    assert before != [] ==> |before[..|before| - 1]| != |before|;
  }

  /** What giving up adds to the default failure. */
  lemma GivingUpAdds(cfg: PollConfig, q: Poll, id: string)
    requires HasLabels(cfg) && SharedOk(cfg, q.shared) && Live(q)
    requires q.severity.None? || q.severity.value < Top(cfg)
    ensures AddsException(q.shared.events, GiveUp(cfg, q, id).shared.events) <==> id == EXCEPTION
  {
    GiveUpStops(cfg, q, id);
    OneMore(q.shared.events, F.Raised(Top(cfg), Irrecoverable(cfg, id)));
  }

  /** What becomes of the default failure when no failure is reported. */
  lemma ContinuedShared(cfg: PollConfig, q: Poll, requested: OpState, live: Poll)
    requires HasLabels(cfg) && Named(q.shared) && Live(q) && !Reports(requested) && live == q.(row := Some(q.state))
    ensures var s := Continued(cfg, q, requested, q.shared).shared;
            if FallsOut(q.state, requested) then s == GiveUp(cfg, live, EXCEPTION).shared
            else s == q.shared || s == GiveUp(cfg, live, NOT_REACHABLE).shared || s == GiveUp(cfg, live, NOT_REACHABLE_V).shared
  {
  }

  /** A call that finds a branch adds no exception; one that finds none adds it. */
  lemma ContinuedRaises(cfg: PollConfig, q: Poll, requested: OpState, live: Poll)
    requires HasLabels(cfg) && SharedOk(cfg, q.shared) && (q.severity.None? || q.severity.value < Top(cfg))
    requires Live(q) && Live(live) && !Reports(requested) && live == q.(row := Some(q.state))
    ensures NewlyRaised(q, Continued(cfg, q, requested, q.shared)) <==> FallsOut(q.state, requested)
  {
    ContinuedShared(cfg, q, requested, live);
    GivingUpAdds(cfg, live, EXCEPTION);
    GivingUpAdds(cfg, live, NOT_REACHABLE);
    GivingUpAdds(cfg, live, NOT_REACHABLE_V);
    OneMore(q.shared.events, Irrecoverable(cfg, EXCEPTION));
  }

  /** Between a request and its reply only an agent that failed mildly can fall out of the branches. */
  lemma FallsOutMildly(cfg: PollConfig, p: Poll, requested: OpState)
    requires HasLabels(cfg) && Inv(cfg, p) && !p.pending.Nothing? && !Reports(requested)
    requires if p.pending.Key? then requested.GetQuote? || requested.ProvideVRetry?
             else requested.GetQuote? || requested.ProvideV? || requested.GetQuoteRetry?
    ensures FallsOut(p.state, requested) <==> p.state.InvalidQuote?
  {
  }

  /** The final raise is reached exactly when an agent that failed mildly gives any reply other than a failing quote. */
  lemma RaisesExactly(cfg: PollConfig, p: Poll, r: Reply)
    requires HasLabels(cfg) && Inv(cfg, p) && !p.pending.Nothing? && Configured(cfg, r)
    ensures NewlyRaised(p, AfterReply(cfg, p, r)) <==>
              Live(Replied(p, r)) && p.state.InvalidQuote? && !Reports(Requested(cfg, p.pending, r).0)
  {
    var q, requested := Replied(p, r), Requested(cfg, p.pending, r).0;
    if Live(q) && !Reports(requested) {
      ContinuedRaises(cfg, q, requested, q.(row := Some(q.state)));
      FallsOutMildly(cfg, p, requested);
    }
  }

  /** Every event has the top severity, as under the default policy. */
  ghost predicate AllTop(cfg: PollConfig)
    requires HasLabels(cfg)
  {
    forall id: string :: F.SeverityMatch(cfg.labels, cfg.rules, id) == Top(cfg)
  }

  lemma {:induction false} NeverInvalid(cfg: PollConfig, acts: seq<Act>)
    requires HasLabels(cfg) && AllTop(cfg)
    requires forall a | a in acts :: a.Answer? ==> Configured(cfg, a.reply)
    ensures !Run(cfg, acts).pending.Nothing? ==> !Run(cfg, acts).state.InvalidQuote?
  {
    if acts != [] {
      var init, last := acts[..|acts| - 1], acts[|acts| - 1];
      assert forall a | a in init :: a in acts;
      NeverInvalid(cfg, init);
      ReachableInv(cfg, init);
      var p := Run(cfg, init);
      if last.Answer? && !p.pending.Nothing? {
        NeverInvalidStep(cfg, p, last.reply);
      }
    }
  }

  lemma NeverInvalidStep(cfg: PollConfig, p: Poll, r: Reply)
    requires HasLabels(cfg) && AllTop(cfg) && Configured(cfg, r) && Inv(cfg, p)
    requires !p.pending.Nothing? && !p.state.InvalidQuote?
    ensures var q := AfterReply(cfg, p, r); !q.pending.Nothing? ==> !q.state.InvalidQuote?
  {
    var requested, q := Requested(cfg, p.pending, r).0, AfterReply(cfg, p, r);
    if requested.InvalidQuote? {
      F.FromEventsMeaning(Top(cfg), r.events.value);
      var e := r.events.value[0];
      assert e in r.events.value && e.severity == Top(cfg);
      MildIsNotFinal(cfg, r.events.value);
      assert q.pending.Nothing?;
    } else if Live(Replied(p, r)) && (requested.GetQuoteRetry? || requested.ProvideVRetry?) {
      GiveUpStops(cfg, Replied(p, r).(row := Some(p.state)), if requested.GetQuoteRetry? then NOT_REACHABLE else NOT_REACHABLE_V);
    }
  }

  /** Under the default severity policy no run ever reaches the final raise. */
  lemma NoRunRaises(cfg: PollConfig, acts: seq<Act>, r: Reply)
    requires HasLabels(cfg) && AllTop(cfg) && Configured(cfg, r)
    requires forall a | a in acts :: a.Answer? ==> Configured(cfg, a.reply)
    requires !Run(cfg, acts).pending.Nothing?
    ensures !NewlyRaised(Run(cfg, acts), AfterReply(cfg, Run(cfg, acts), r))
  {
    ReachableInv(cfg, acts);
    NeverInvalid(cfg, acts);
    RaisesExactly(cfg, Run(cfg, acts), r);
  }

  /**
   * After a mild failure only further mild failures keep the agent polled. Any other reply ends polling; one that is
   * no failing quote, a flawless one included, leaves it FAILED.
   */
  lemma MildFailureDooms(cfg: PollConfig, p: Poll, r: Reply)
    requires HasLabels(cfg) && Inv(cfg, p) && Configured(cfg, r)
    requires p.pending.Quote? && p.state.InvalidQuote? && Live(p)
    ensures var q := AfterReply(cfg, p, r);
            && (q.pending != Nothing <==> MildFailure(cfg, r))
            && (!(r.code == 200 && r.events.Some? && r.events.value != []) ==> q.state.Failed? && q.row == Some(Failed))
  {
    var q := Requested(cfg, p.pending, r);
    if q.0.InvalidQuote? {
      var es := r.events.value;
      F.FromEventsMeaning(Top(cfg), es);
      MildIsNotFinal(cfg, es);
      forall e | e in es ensures e.severity <= Top(cfg) {
        F.SeverityBounded(cfg.labels, cfg.rules, e.id);
      }
    } else if !Reports(q.0) {
      GiveUpStops(cfg, Replied(p, r).(row := Some(p.state)), EXCEPTION);
    }
  }

  lemma Posted(cfg: PollConfig)
    requires HasLabels(cfg)
    ensures Run(cfg, [Post]) == Poll(GetQuote, 0, None, "", Some(Start), Quote(true), F.NO_FAILURE)
  {
    assert [Post][..0] == [];
    assert Run(cfg, []) == UNKNOWN;
  }

  /** A run in which a mild failure is followed by a flawless quote, and the agent ends FAILED. */
  lemma FlawlessQuoteFails(matches: string -> bool)
    requires matches("ima.validation")
    ensures var cfg := PollConfig(["info", "emergency"], [F.SeverityRule(matches, "info")], 5, false);
            var mild := Reply(200, None, false, Some([F.Event("ima.validation", 0, true)]), false);
            var flawless := Reply(200, None, false, Some([]), false);
            var p := Run(cfg, [Post, Answer(mild), Answer(flawless)]);
            p.state.Failed? && p.pending.Nothing? && Run(cfg, [Post, Answer(mild)]).pending.Quote?
  {
    var cfg := PollConfig(["info", "emergency"], [F.SeverityRule(matches, "info")], 5, false);
    var event := F.Event("ima.validation", 0, true);
    var mild, flawless := Answer(Reply(200, None, false, Some([event]), false)), Answer(Reply(200, None, false, Some([]), false));
    var posted := Run(cfg, [Post]);
    Posted(cfg);
    assert [Post, mild][..1] == [Post] && [Post, mild, flawless][..2] == [Post, mild];
    assert F.FromEvents(Top(cfg), []) == F.NO_FAILURE && [event][..0] == [];
    assert F.SeverityMatch(cfg.labels, cfg.rules, event.id) == 0;
    MildIsNotFinal(cfg, [event]);
    ReachableInv(cfg, [Post]);
    var doubted := AfterReply(cfg, posted, mild.reply);
    assert doubted.pending.Quote? && doubted.state.InvalidQuote?;
    ReplyKeepsInv(cfg, posted, mild.reply);
    MildFailureDooms(cfg, doubted, flawless.reply);
  }

  // Unreachable agents

  /** The answers, one by one, while there is a request to answer. */
  function Replies(cfg: PollConfig, p: Poll, rs: seq<Reply>): (q: Poll)
    requires HasLabels(cfg) && Named(p.shared)
    ensures Named(q.shared)
  {
    if rs == [] then p else Perform(cfg, Replies(cfg, p, rs[..|rs| - 1]), Answer(rs[|rs| - 1]))
  }

  /** How often a connection may still fail. */
  function Allowed(cfg: PollConfig, p: Poll): nat
    requires Retries(cfg, p)
  {
    if cfg.maxRetries < 0 then 0 else cfg.maxRetries - p.retries
  }

  /**
   * One connection error. The event noted when retries run out is the first ever added to the shared default: the
   * agent's own only when nothing was added before.
   */
  lemma ConnectionErrorStep(cfg: PollConfig, p: Poll, r: Reply)
    requires HasLabels(cfg) && Inv(cfg, p) && ConnectionError(r.code)
    requires !p.pending.Nothing? && !p.state.InvalidQuote? && Live(p)
    ensures p.retries < cfg.maxRetries ==>
              AfterReply(cfg, p, r) ==
                p.(retries := p.retries + 1, row := Some(p.state), pending := if p.pending.Key? then Key else Quote(true))
    ensures p.retries >= cfg.maxRetries ==>
              var q, id := AfterReply(cfg, p, r), if p.pending.Key? then NOT_REACHABLE_V else NOT_REACHABLE;
              && q.pending.Nothing? && q.state.Failed? && q.row == Some(Failed)
              && q.lastEvent == if p.shared == F.NO_FAILURE then id else p.shared.highestEvent.value.id
  {
    var q, id := Replied(p, r).(row := Some(p.state)), if p.pending.Key? then NOT_REACHABLE_V else NOT_REACHABLE;
    if p.retries >= cfg.maxRetries {
      GiveUpStops(cfg, q, id);
      assert AfterReply(cfg, p, r) == GiveUp(cfg, q, id);
    }
  }

  /**
   * A streak of connection errors: every request but the last allowed one is repeated, with the same state, and the
   * next error fails the agent and ends polling.
   */
  lemma {:induction false} UnreachableStreak(cfg: PollConfig, p: Poll, rs: seq<Reply>)
    requires HasLabels(cfg) && Inv(cfg, p) && !p.pending.Nothing? && !p.state.InvalidQuote? && Live(p)
    requires |rs| <= Allowed(cfg, p) + 1
    requires forall r | r in rs :: ConnectionError(r.code)
    ensures var q := Replies(cfg, p, rs);
            if |rs| <= Allowed(cfg, p) then
              && (q.pending.Key? <==> p.pending.Key?) && !q.pending.Nothing? && q.state == p.state
              && q.retries == p.retries + |rs| && q.shared == p.shared && q.severity.None? && Live(q)
              && (rs != [] ==> q.row == Some(p.state))
            else q.pending.Nothing? && q.state.Failed? && q.row == Some(Failed)
  {
    if rs != [] {
      var init, last := rs[..|rs| - 1], rs[|rs| - 1];
      UnreachableStreak(cfg, p, init);
      assert last in rs;
      ConnectionErrorStep(cfg, Replies(cfg, p, init), last);
    }
  }

  /** A new agent that never answers is asked exactly `max_retries` + 1 times. */
  lemma NewAgentUnreachable(cfg: PollConfig, rs: seq<Reply>)
    requires HasLabels(cfg) && cfg.maxRetries >= 0
    requires forall r | r in rs :: ConnectionError(r.code)
    requires |rs| <= cfg.maxRetries + 1
    ensures Replies(cfg, Run(cfg, [Post]), rs).pending != Nothing <==> |rs| <= cfg.maxRetries
    ensures |rs| == cfg.maxRetries + 1 ==> Replies(cfg, Run(cfg, [Post]), rs).state.Failed?
  {
    var p := Run(cfg, [Post]);
    Posted(cfg);
    UnreachableStreak(cfg, p, rs);
  }

  // The tenant's word

  /**
   * Once the row is gone, terminated or stopped, the next reply ends polling, whatever it is, except for one that
   * changes the API version of an agent that may still be retried: it overwrites the tenant's decision.
   */
  lemma TenantStops(cfg: PollConfig, p: Poll, r: Reply)
    requires HasLabels(cfg) && Inv(cfg, p) && !p.pending.Nothing? && !Live(p)
    ensures AfterReply(cfg, p, r).pending != Nothing <==>
              Overwrites(r) && p.row.Some? && !p.state.InvalidQuote? && p.retries < cfg.maxRetries
    ensures p.row == Some(Terminated) && !Overwrites(r) ==> AfterReply(cfg, p, r).row == None
  {
    var requested := Requested(cfg, p.pending, r).0;
    if Overwrites(r) && p.row.Some? {
      var q := Replied(p, r).(row := Some(p.state));
      if FallsOut(p.state, requested) {
        GiveUpStops(cfg, q, EXCEPTION);
      } else if p.retries >= cfg.maxRetries {
        GiveUpStops(cfg, q, if p.pending.Key? then NOT_REACHABLE_V else NOT_REACHABLE);
      }
    }
  }

  /** A restart resumes polling for exactly the agents that were polled, not stopped, and had not failed mildly. */
  lemma RestartResumes(cfg: PollConfig, acts: seq<Act>)
    requires HasLabels(cfg)
    requires forall a | a in acts :: a.Answer? ==> Configured(cfg, a.reply)
    ensures var p := Run(cfg, acts);
            Restarted(cfg, p).pending != Nothing <==> p.pending != Nothing && Live(p) && !p.state.InvalidQuote?
  {
    ReachableInv(cfg, acts);
  }
}
